/** The hand-off of an interrupted authorization across `/login`, `/two-factor` and
    `/change-password`, after the POST handlers and loaders of those three routes, with
    `readForm` and `safeReturnTo` of `apps/web/src/server/http/auth-proxy.ts`. */
module SignInChain {
  import opened Text
  import opened OauthQuery

  /** A path on this host, or else the fallback. */
  function SafeReturnTo(value: string, fallback: string): string {
    var candidate := Trim(value);
    if candidate == "" then fallback
    else if candidate[0] != '/' then fallback
    else if "//" <= candidate || "/\\" <= candidate then fallback
    else if Contains(candidate, "://") then fallback
    else candidate
  }

  /** The fields of a posted form; an absent field and an empty one are both "". */
  datatype Form = Form(returnTo: string, oauthQuery: string, forced: bool, backup: bool)

  /** `readForm` trims every value. */
  function ReadForm(posted: Form): Form {
    posted.(returnTo := Trim(posted.returnTo), oauthQuery := Trim(posted.oauthQuery))
  }

  /** The query parameters of a page address. */
  datatype Params = Params(
    returnTo: Option<string>, oauthQuery: Option<string>, forced: bool, backup: bool, error: Option<string>)

  const NO_PARAMS: Params := Params(None, None, false, false, None)

  datatype Page = Login | TwoFactor | ChangePassword | PendingApproval | Banned

  /** What a handler answers: a redirect to a page, or the settled sign-in, which hands the
      two carried values to `resumeAuthorization` and `resolveSignInDestination`. */
  datatype Response =
    | Redirect(page: Page, params: Params)
    | Settled(oauthQuery: string, returnTo: string)

  // ---------------------------------------------------------------- the handlers

  datatype SignIn =
    | Refused(code: string)
    | Accepted(twoFactorRedirect: bool, mustChangePassword: bool)

  /** After an accepted password the answer hands on both values; after a refusal the request
      is gone, and where a status page takes over the destination too. Nothing settles while
      a gate is left. */
  method PostLogin(posted: Form, result: SignIn) returns (response: Response)
    ensures Hands(response, QueryAfter(Enter(result), Trim(posted.oauthQuery)),
                  ReturnAfter(Enter(result), SafeReturnTo(Trim(posted.returnTo), "")))
    ensures response.Settled? <==> Accepts(Enter(result))
    ensures Leads(response, Enter(result))
    ensures response == LoginResponse(posted, result)
  {
    LoginKeeps(posted, result);
    var form := ReadForm(posted);
    var returnTo := SafeReturnTo(form.returnTo, "");
    var oauthQuery := form.oauthQuery;
    if result.Refused? {
      if result.code == "pending_approval" {
        return Redirect(PendingApproval, NO_PARAMS);
      }
      if result.code == "banned" {
        return Redirect(Banned, NO_PARAMS);
      }
      var here := NO_PARAMS;
      if returnTo != "" {
        here := here.(returnTo := Some(returnTo));
      }
      return Redirect(Login, here.(error := Some(result.code)));
    }
    if result.twoFactorRedirect {
      var params := NO_PARAMS;
      if returnTo != "" { params := params.(returnTo := Some(returnTo)); }
      if oauthQuery != "" { params := params.(oauthQuery := Some(oauthQuery)); }
      return Redirect(TwoFactor, params);
    }
    if result.mustChangePassword {
      var params := NO_PARAMS.(forced := true);
      if returnTo != "" { params := params.(returnTo := Some(returnTo)); }
      if oauthQuery != "" { params := params.(oauthQuery := Some(oauthQuery)); }
      return Redirect(ChangePassword, params);
    }
    response := Settled(oauthQuery, returnTo);
  }

  datatype Verification = Wrong | Locked | ChallengeExpired | Right

  /** A wrong code keeps both values on the page, an expired challenge drops both, and only
      the right code settles. */
  method PostTwoFactor(posted: Form, result: Verification) returns (response: Response)
    ensures Hands(response, QueryAfter(Verify(result), Trim(posted.oauthQuery)),
                  ReturnAfter(Verify(result), SafeReturnTo(Trim(posted.returnTo), "")))
    ensures response.Settled? <==> Accepts(Verify(result))
    ensures Leads(response, Verify(result))
    ensures IsPage(response, TwoFactor) ==> response.params.backup == posted.backup
    ensures response == TwoFactorResponse(posted, result)
  {
    TwoFactorKeeps(posted, result);
    var form := ReadForm(posted);
    var returnTo := SafeReturnTo(form.returnTo, "");
    var params := NO_PARAMS;
    if returnTo != "" { params := params.(returnTo := Some(returnTo)); }
    if form.oauthQuery != "" { params := params.(oauthQuery := Some(form.oauthQuery)); }
    if form.backup { params := params.(backup := true); }
    if result == ChallengeExpired {
      return Redirect(Login, NO_PARAMS.(error := Some("two_factor_expired")));
    }
    if result == Locked {
      return Redirect(TwoFactor, params.(error := Some("two_factor_locked")));
    }
    if result == Wrong {
      return Redirect(TwoFactor, params.(error := Some("two_factor_invalid")));
    }
    response := Settled(form.oauthQuery, returnTo);
  }

  datatype Change = Changed | NotChanged(code: string)

  /** A refused password keeps both values on the page, and only a change settles. */
  method PostChangePassword(posted: Form, result: Change) returns (response: Response)
    ensures Hands(response, Trim(posted.oauthQuery), SafeReturnTo(Trim(posted.returnTo), ""))
    ensures response.Settled? <==> Accepts(ChangeTo(result))
    ensures Leads(response, ChangeTo(result))
    ensures IsPage(response, ChangePassword) ==> response.params.forced == posted.forced
    ensures response == ChangeResponse(posted, result)
  {
    ChangeKeeps(posted, result);
    var form := ReadForm(posted);
    var returnTo := SafeReturnTo(form.returnTo, "");
    var params := NO_PARAMS;
    if returnTo != "" { params := params.(returnTo := Some(returnTo)); }
    if form.oauthQuery != "" { params := params.(oauthQuery := Some(form.oauthQuery)); }
    if form.forced { params := params.(forced := true); }
    if result.NotChanged? {
      return Redirect(ChangePassword, params.(error := Some(result.code)));
    }
    response := Settled(form.oauthQuery, returnTo);
  }

  // ------------------------------------------------------- the same, as functions

  function IfAny(s: string): Option<string> {
    if s == "" then None else Some(s)
  }

  function LoginResponse(posted: Form, result: SignIn): Response {
    var returnTo := SafeReturnTo(Trim(posted.returnTo), "");
    var oauthQuery := Trim(posted.oauthQuery);
    match result
    case Refused(code) =>
      if code == "pending_approval" then Redirect(PendingApproval, NO_PARAMS)
      else if code == "banned" then Redirect(Banned, NO_PARAMS)
      else Redirect(Login, NO_PARAMS.(returnTo := IfAny(returnTo), error := Some(code)))
    case Accepted(twoFactorRedirect, mustChangePassword) =>
      if twoFactorRedirect then Redirect(TwoFactor, Params(IfAny(returnTo), IfAny(oauthQuery), false, false, None))
      else if mustChangePassword then
        Redirect(ChangePassword, Params(IfAny(returnTo), IfAny(oauthQuery), true, false, None))
      else Settled(oauthQuery, returnTo)
  }

  function TwoFactorResponse(posted: Form, result: Verification): Response {
    var returnTo := SafeReturnTo(Trim(posted.returnTo), "");
    var oauthQuery := Trim(posted.oauthQuery);
    var here := Params(IfAny(returnTo), IfAny(oauthQuery), false, posted.backup, None);
    match result
    case ChallengeExpired => Redirect(Login, NO_PARAMS.(error := Some("two_factor_expired")))
    case Locked => Redirect(TwoFactor, here.(error := Some("two_factor_locked")))
    case Wrong => Redirect(TwoFactor, here.(error := Some("two_factor_invalid")))
    case Right => Settled(oauthQuery, returnTo)
  }

  function ChangeResponse(posted: Form, result: Change): Response {
    var returnTo := SafeReturnTo(Trim(posted.returnTo), "");
    var oauthQuery := Trim(posted.oauthQuery);
    match result
    case NotChanged(code) =>
      Redirect(ChangePassword, Params(IfAny(returnTo), IfAny(oauthQuery), posted.forced, false, Some(code)))
    case Changed => Settled(oauthQuery, returnTo)
  }

  // ------------------------------------------------------- the pages in between

  function Piece(key: string, value: Option<string>, parse: string -> Parsed): seq<Entry> {
    if value.Some? then [Entry(key, parse(value.value))] else []
  }

  function Flag(on: bool): Option<string> {
    if on then Some("1") else None
  }

  /** The router's view of a page address, value by value. */
  function SearchOf(params: Params, parse: string -> Parsed): seq<Entry> {
    Piece("returnTo", params.returnTo, parse) + Piece(OAUTH_QUERY_PARAM, params.oauthQuery, parse)
    + Piece("forced", Flag(params.forced), parse) + Piece("backup", Flag(params.backup), parse)
    + Piece("error", params.error, parse)
  }

  function OrEmpty(s: Option<string>): string {
    if s.Some? then s.value else ""
  }

  /** What a loader reads out of the address and the page posts back in hidden fields. */
  function Rendered(params: Params, parse: string -> Parsed, serialize: seq<Pair> -> string): Form {
    var search := SearchOf(params, parse);
    Form(SafeReturnTo(OrEmpty(SearchString(Lookup(search, "returnTo"))), ""),
         OrEmpty(ReadOauthQuery(search, serialize)), params.forced, params.backup)
  }

  /** One round trip of the browser: the page is shown, and its form is posted. */
  datatype Post =
    | Enter(attempt: SignIn)
    | Verify(result: Verification)
    | SwitchForm
    | ChangeTo(change: Change)

  predicate Fits(page: Page, post: Post) {
    match page
    case Login => post.Enter?
    case TwoFactor => post.Verify? || post.SwitchForm?
    case ChangePassword => post.ChangeTo?
    case _ => false
  }

  function Next(response: Response, post: Post, parse: string -> Parsed, serialize: seq<Pair> -> string): Response
    requires response.Redirect? && Fits(response.page, post)
  {
    var form := Rendered(response.params, parse, serialize);
    match post
    case Enter(attempt) => LoginResponse(form, attempt)
    case Verify(result) => TwoFactorResponse(form, result)
    case ChangeTo(change) => ChangeResponse(form, change)
    case SwitchForm =>
      // The link between the two second-factor forms carries both values along.
      Redirect(TwoFactor, Params(IfAny(form.returnTo), IfAny(form.oauthQuery), false, !form.backup, None))
  }

  /** A browser goes back and forth between the pages it was shown, and posts any of them,
      as often as it likes. */
  datatype Visit = Visit(from: nat, post: Post)

  predicate InOrder(visits: seq<Visit>) {
    forall i | 0 <= i < |visits| :: visits[i].from <= i
  }

  ghost predicate IsVisit(shown: seq<Response>, visit: Visit, i: nat,
                          parse: string -> Parsed, serialize: seq<Pair> -> string)
    requires i + 1 < |shown|
  {
    && visit.from <= i && shown[visit.from].Redirect? && Fits(shown[visit.from].page, visit.post)
    && shown[i + 1] == Next(shown[visit.from], visit.post, parse, serialize)
  }

  /** What a browser was shown, the first answer and then one for every visit. */
  ghost predicate IsHistory(visits: seq<Visit>, shown: seq<Response>,
                            parse: string -> Parsed, serialize: seq<Pair> -> string) {
    && |shown| == |visits| + 1 && InOrder(visits)
    && forall i | 0 <= i < |visits| :: IsVisit(shown, visits[i], i, parse, serialize)
  }

  // ----------------------------------------------------------------- the theorem

  lemma SafeReturnToIdempotent(value: string)
    ensures SafeReturnTo(SafeReturnTo(value, ""), "") == SafeReturnTo(value, "")
    ensures Trim(SafeReturnTo(value, "")) == SafeReturnTo(value, "")
  {
    TrimIdempotent(value);
    assert AllSpace("");
    TrimAllSpace("");
  }

  /** A page address that carries exactly the two values. */
  ghost predicate Carries(params: Params, oauthQuery: string, returnTo: string) {
    params.oauthQuery == IfAny(oauthQuery) && params.returnTo == IfAny(returnTo)
  }

  /** A value the router's JSON parser leaves alone. */
  ghost predicate NotJson(parse: string -> Parsed, value: string) {
    parse(value) == Str(value)
  }

  lemma LookupPiece(front: seq<Entry>, name: string, value: Option<string>, parse: string -> Parsed, key: string)
    ensures Lookup(front + Piece(name, value, parse), key)
         == if name == key && value.Some? then parse(value.value) else Lookup(front, key)
  {
    var piece := Piece(name, value, parse);
    if value.Some? {
      assert (front + piece)[..|front + piece| - 1] == front;
    } else {
      assert front + piece == front;
    }
  }

  lemma LookupParams(params: Params, parse: string -> Parsed, key: string)
    requires key == "returnTo" || key == OAUTH_QUERY_PARAM || key == "sig"
    ensures Lookup(SearchOf(params, parse), key) ==
              if key == "returnTo" && params.returnTo.Some? then parse(params.returnTo.value)
              else if key == OAUTH_QUERY_PARAM && params.oauthQuery.Some? then parse(params.oauthQuery.value)
              else Undefined
  {
    var one := Piece("returnTo", params.returnTo, parse);
    var two := one + Piece(OAUTH_QUERY_PARAM, params.oauthQuery, parse);
    var three := two + Piece("forced", Flag(params.forced), parse);
    var four := three + Piece("backup", Flag(params.backup), parse);
    assert [] + one == one;
    LookupPiece([], "returnTo", params.returnTo, parse, key);
    LookupPiece(one, OAUTH_QUERY_PARAM, params.oauthQuery, parse, key);
    LookupPiece(two, "forced", Flag(params.forced), parse, key);
    LookupPiece(three, "backup", Flag(params.backup), parse, key);
    LookupPiece(four, "error", params.error, parse, key);
    assert SearchOf(params, parse) == four + Piece("error", params.error, parse);
  }

  /** The loader and the page hand on what the address carries. */
  lemma RenderedCarries(params: Params, q: string, r: string, parse: string -> Parsed, serialize: seq<Pair> -> string)
    requires Carries(params, q, r)
    requires q != "" ==> NotJson(parse, q)
    requires r != "" ==> NotJson(parse, r) && SafeReturnTo(r, "") == r
    ensures Rendered(params, parse, serialize).oauthQuery == q
    ensures Rendered(params, parse, serialize).returnTo == r
  {
    LookupParams(params, parse, "returnTo");
    LookupParams(params, parse, OAUTH_QUERY_PARAM);
    LookupParams(params, parse, "sig");
    assert SafeReturnTo("", "") == "";
  }

  /** A refusal that has a page of its own. */
  predicate HasStatusPage(code: string) {
    code == "pending_approval" || code == "banned"
  }

  predicate DropsQuery(post: Post) {
    post == Verify(ChallengeExpired) || (post.Enter? && post.attempt.Refused?)
  }

  predicate DropsReturn(post: Post) {
    post == Verify(ChallengeExpired) || (post.Enter? && post.attempt.Refused? && HasStatusPage(post.attempt.code))
  }

  function QueryAfter(post: Post, oauthQuery: string): string {
    if DropsQuery(post) then "" else oauthQuery
  }

  function ReturnAfter(post: Post, returnTo: string): string {
    if DropsReturn(post) then "" else returnTo
  }

  /** The last gate is passed. */
  predicate Accepts(post: Post) {
    match post
    case Enter(attempt) => attempt == Accepted(false, false)
    case Verify(result) => result == Right
    case ChangeTo(change) => change == Changed
    case SwitchForm => false
  }

  /** The answer hands on exactly these two values, to the next page or to the settlement. */
  ghost predicate Hands(response: Response, oauthQuery: string, returnTo: string) {
    match response
    case Settled(q, r) => q == oauthQuery && r == returnTo
    case Redirect(_, params) => Carries(params, oauthQuery, returnTo)
  }

  predicate IsPage(response: Response, page: Page) {
    response.Redirect? && response.page == page
  }

  /** Which page the answer to a post leads to, and what is said there. */
  ghost predicate Leads(response: Response, post: Post) {
    match post
    case Enter(attempt) =>
      && (IsPage(response, TwoFactor) <==> attempt.Accepted? && attempt.twoFactorRedirect)
      && (IsPage(response, ChangePassword) <==> attempt == Accepted(false, true))
      && (IsPage(response, PendingApproval) <==> attempt == Refused("pending_approval"))
      && (IsPage(response, Banned) <==> attempt == Refused("banned"))
      && (IsPage(response, Login) <==> attempt.Refused? && !HasStatusPage(attempt.code))
      && (IsPage(response, Login) ==> response.params.error == Some(attempt.code))
      && (IsPage(response, ChangePassword) ==> response.params.forced)
    case Verify(result) =>
      && (IsPage(response, TwoFactor) <==> result == Wrong || result == Locked)
      && (IsPage(response, Login) <==> result == ChallengeExpired)
      && (result == Wrong ==> response.params.error == Some("two_factor_invalid"))
      && (result == Locked ==> response.params.error == Some("two_factor_locked"))
      && (result == ChallengeExpired ==> response.params.error == Some("two_factor_expired"))
    case SwitchForm => IsPage(response, TwoFactor) && response.params.error == None
    case ChangeTo(change) =>
      && (IsPage(response, ChangePassword) <==> change.NotChanged?)
      && (change.NotChanged? ==> response.params.error == Some(change.code))
  }

  lemma LoginKeeps(posted: Form, result: SignIn)
    ensures Hands(LoginResponse(posted, result), QueryAfter(Enter(result), Trim(posted.oauthQuery)),
                  ReturnAfter(Enter(result), SafeReturnTo(Trim(posted.returnTo), "")))
    ensures LoginResponse(posted, result).Settled? <==> Accepts(Enter(result))
    ensures Leads(LoginResponse(posted, result), Enter(result))
  {
  }

  lemma TwoFactorKeeps(posted: Form, result: Verification)
    ensures Hands(TwoFactorResponse(posted, result), QueryAfter(Verify(result), Trim(posted.oauthQuery)),
                  ReturnAfter(Verify(result), SafeReturnTo(Trim(posted.returnTo), "")))
    ensures TwoFactorResponse(posted, result).Settled? <==> Accepts(Verify(result))
    ensures Leads(TwoFactorResponse(posted, result), Verify(result))
  {
  }

  lemma ChangeKeeps(posted: Form, result: Change)
    ensures Hands(ChangeResponse(posted, result), Trim(posted.oauthQuery), SafeReturnTo(Trim(posted.returnTo), ""))
    ensures ChangeResponse(posted, result).Settled? <==> Accepts(ChangeTo(result))
    ensures Leads(ChangeResponse(posted, result), ChangeTo(result))
  {
  }

  /** A value that comes through the address of a page and its form as it is. */
  ghost predicate Travels(parse: string -> Parsed, value: string) {
    Trim(value) == value && (value != "" ==> NotJson(parse, value))
  }

  lemma NextHands(response: Response, post: Post, q: string, r: string,
                  parse: string -> Parsed, serialize: seq<Pair> -> string)
    requires Hands(response, q, r) && response.Redirect? && Fits(response.page, post)
    requires Travels(parse, q) && Travels(parse, r) && SafeReturnTo(r, "") == r
    ensures Hands(Next(response, post, parse, serialize), QueryAfter(post, q), ReturnAfter(post, r))
    ensures Next(response, post, parse, serialize).Settled? <==> Accepts(post)
  {
    RenderedCarries(response.params, q, r, parse, serialize);
    var form := Rendered(response.params, parse, serialize);
    match post
    case Enter(attempt) => LoginKeeps(form, attempt);
    case Verify(result) => TwoFactorKeeps(form, result);
    case ChangeTo(change) => ChangeKeeps(form, change);
    case SwitchForm =>
  }

  /** On the way to this page the request was dropped. */
  predicate LosesQuery(visits: seq<Visit>, i: nat)
    requires InOrder(visits) && i <= |visits|
    decreases i
  {
    i > 0 && (DropsQuery(visits[i - 1].post) || LosesQuery(visits, visits[i - 1].from))
  }

  predicate LosesReturn(visits: seq<Visit>, i: nat)
    requires InOrder(visits) && i <= |visits|
    decreases i
  {
    i > 0 && (DropsReturn(visits[i - 1].post) || LosesReturn(visits, visits[i - 1].from))
  }

  /** Every page of every history hands on each of the two values exactly where it was not
      dropped on the way there. */
  lemma {:induction false} EveryPageHands(
      visits: seq<Visit>, shown: seq<Response>, i: nat, q: string, r: string,
      parse: string -> Parsed, serialize: seq<Pair> -> string)
    requires IsHistory(visits, shown, parse, serialize) && i < |shown|
    requires Hands(shown[0], q, r)
    requires Travels(parse, q) && Travels(parse, r) && SafeReturnTo(r, "") == r
    ensures Hands(shown[i], if LosesQuery(visits, i) then "" else q, if LosesReturn(visits, i) then "" else r)
    decreases i
  {
    if i > 0 {
      var visit := visits[i - 1];
      assert IsVisit(shown, visit, i - 1, parse, serialize);
      EveryPageHands(visits, shown, visit.from, q, r, parse, serialize);
      NothingTravels(parse);
      NextHands(shown[visit.from], visit.post, if LosesQuery(visits, visit.from) then "" else q,
                if LosesReturn(visits, visit.from) then "" else r, parse, serialize);
    }
  }

  lemma NothingTravels(parse: string -> Parsed)
    ensures Travels(parse, "") && SafeReturnTo("", "") == ""
  {
    assert AllSpace("");
    TrimAllSpace("");
  }

  /** Once the password is accepted: whatever codes, switches between the forms, refused
      passwords and new sign-ins follow, on whichever of the pages shown, a settled sign-in
      has the request that `/login` received if and only if no challenge expired and no
      password was refused on the way to it, and the destination likewise. */
  lemma AuthorizationIsCarried(
      posted: Form, twoFactor: bool, mustChange: bool, visits: seq<Visit>, shown: seq<Response>, i: nat,
      parse: string -> Parsed, serialize: seq<Pair> -> string)
    requires IsHistory(visits, shown, parse, serialize)
    requires shown[0] == LoginResponse(posted, Accepted(twoFactor, mustChange))
    requires i < |shown| && shown[i].Settled?
    requires var q := Trim(posted.oauthQuery); q != "" ==> NotJson(parse, q)
    requires var r := SafeReturnTo(Trim(posted.returnTo), ""); r != "" ==> NotJson(parse, r)
    ensures shown[i].oauthQuery == Trim(posted.oauthQuery)
       <==> !LosesQuery(visits, i) || Trim(posted.oauthQuery) == ""
    ensures shown[i].returnTo == SafeReturnTo(Trim(posted.returnTo), "")
       <==> !LosesReturn(visits, i) || SafeReturnTo(Trim(posted.returnTo), "") == ""
    ensures LosesQuery(visits, i) ==> shown[i].oauthQuery == ""
    ensures LosesReturn(visits, i) ==> shown[i].returnTo == ""
  {
    var q, r := Trim(posted.oauthQuery), SafeReturnTo(Trim(posted.returnTo), "");
    TrimIdempotent(posted.oauthQuery);
    SafeReturnToIdempotent(Trim(posted.returnTo));
    LoginKeeps(posted, Accepted(twoFactor, mustChange));
    EveryPageHands(visits, shown, i, q, r, parse, serialize);
  }

  // ------------------------------------------------------ how often a sign-in settles

  function Settlements(shown: seq<Response>): nat {
    if shown == [] then 0
    else Settlements(shown[..|shown| - 1]) + (if shown[|shown| - 1].Settled? then 1 else 0)
  }

  function Acceptances(visits: seq<Visit>): nat {
    if visits == [] then 0
    else Acceptances(visits[..|visits| - 1]) + (if Accepts(visits[|visits| - 1].post) then 1 else 0)
  }

  lemma NextSettles(response: Response, post: Post, parse: string -> Parsed, serialize: seq<Pair> -> string)
    requires response.Redirect? && Fits(response.page, post)
    ensures Next(response, post, parse, serialize).Settled? <==> Accepts(post)
    ensures Leads(Next(response, post, parse, serialize), post)
  {
    var form := Rendered(response.params, parse, serialize);
    match post
    case Enter(attempt) => LoginKeeps(form, attempt);
    case Verify(result) => TwoFactorKeeps(form, result);
    case ChangeTo(change) => ChangeKeeps(form, change);
    case SwitchForm =>
  }

  lemma HistoryFront(visits: seq<Visit>, shown: seq<Response>,
                     parse: string -> Parsed, serialize: seq<Pair> -> string)
    requires IsHistory(visits, shown, parse, serialize) && visits != []
    ensures IsHistory(visits[..|visits| - 1], shown[..|visits|], parse, serialize)
  {
    var fewer, front := visits[..|visits| - 1], shown[..|visits|];
    forall i | 0 <= i < |fewer| ensures IsVisit(front, fewer[i], i, parse, serialize) {
      assert IsVisit(shown, visits[i], i, parse, serialize);
    }
  }

  /** The handlers do not count: a history settles once for every post that is accepted, a
      page posted again included. What bounds it is how often the codes and passwords are. */
  lemma {:induction false} SettlementsAreAcceptances(
      visits: seq<Visit>, shown: seq<Response>, parse: string -> Parsed, serialize: seq<Pair> -> string)
    requires IsHistory(visits, shown, parse, serialize)
    ensures Settlements(shown) == (if shown[0].Settled? then 1 else 0) + Acceptances(visits)
    decreases |visits|
  {
    var n := |visits|;
    if n == 0 {
      assert shown[..0] == [];
    } else {
      HistoryFront(visits, shown, parse, serialize);
      SettlementsAreAcceptances(visits[..n - 1], shown[..n], parse, serialize);
      assert IsVisit(shown, visits[n - 1], n - 1, parse, serialize);
      NextSettles(shown[visits[n - 1].from], visits[n - 1].post, parse, serialize);
    }
  }

  lemma TwoReposts(first: Response, post: Post, parse: string -> Parsed, serialize: seq<Pair> -> string)
    requires first.Redirect? && Fits(first.page, post)
    ensures var answer := Next(first, post, parse, serialize);
            IsHistory([Visit(0, post), Visit(0, post)], [first, answer, answer], parse, serialize)
  {
    var answer := Next(first, post, parse, serialize);
    var visits, shown := [Visit(0, post), Visit(0, post)], [first, answer, answer];
    forall i | 0 <= i < |visits| ensures IsVisit(shown, visits[i], i, parse, serialize) {
      assert visits[i] == Visit(0, post) && shown[i + 1] == answer;
    }
  }

  lemma AcceptedTwice(post: Post)
    requires Accepts(post)
    ensures Acceptances([Visit(0, post), Visit(0, post)]) == 2
  {
    var one := [Visit(0, post)];
    assert one[..0] == [] && (one + one)[..1] == one;
    assert Acceptances(one) == 1;
  }

  /** A change of password posted twice from one page settles twice, if it is accepted twice. */
  lemma {:induction false} RepostSettlesAgain(first: Response, parse: string -> Parsed, serialize: seq<Pair> -> string)
      returns (visits: seq<Visit>, shown: seq<Response>)
    requires first.Redirect? && first.page == ChangePassword
    ensures IsHistory(visits, shown, parse, serialize) && |visits| == 2
    ensures shown[0] == first && shown[1] == shown[2] && Settlements(shown) == 2
  {
    var post := ChangeTo(Changed);
    var answer := Next(first, post, parse, serialize);
    visits, shown := [Visit(0, post), Visit(0, post)], [first, answer, answer];
    TwoReposts(first, post, parse, serialize);
    AcceptedTwice(post);
    SettlementsAreAcceptances(visits, shown, parse, serialize);
  }

  // ------------------------------------------------------------------ the gates

  /** What is still asked of the user, by the last sign-in on the way to a page. */
  datatype Owed = NoMore | SecondFactor | NewPassword | SignInAgain | WaitForStatus

  function OwedBy(attempt: SignIn): Owed {
    match attempt
    case Accepted(twoFactor, mustChange) =>
      if twoFactor then SecondFactor else if mustChange then NewPassword else NoMore
    case Refused(code) => if HasStatusPage(code) then WaitForStatus else SignInAgain
  }

  function OwedAfter(post: Post, owed: Owed): Owed {
    match post
    case Enter(attempt) => OwedBy(attempt)
    case Verify(result) =>
      if result == Right then NoMore else if result == ChallengeExpired then SignInAgain else owed
    case SwitchForm => owed
    case ChangeTo(change) => if change.Changed? then NoMore else owed
  }

  function OwedAt(visits: seq<Visit>, i: nat, first: Owed): Owed
    requires InOrder(visits) && i <= |visits|
    decreases i
  {
    if i == 0 then first else OwedAfter(visits[i - 1].post, OwedAt(visits, visits[i - 1].from, first))
  }

  /** The page asks for what is owed, and a sign-in settles when nothing is. */
  ghost predicate AsksFor(response: Response, owed: Owed) {
    match owed
    case NoMore => response.Settled?
    case SecondFactor => IsPage(response, TwoFactor)
    case NewPassword => IsPage(response, ChangePassword)
    case SignInAgain => IsPage(response, Login)
    case WaitForStatus => IsPage(response, PendingApproval) || IsPage(response, Banned)
  }

  lemma NextAsks(response: Response, post: Post, owed: Owed, parse: string -> Parsed, serialize: seq<Pair> -> string)
    requires response.Redirect? && Fits(response.page, post) && AsksFor(response, owed)
    ensures AsksFor(Next(response, post, parse, serialize), OwedAfter(post, owed))
  {
    NextSettles(response, post, parse, serialize);
  }

  /** Every page of every history asks for exactly what is owed there. */
  lemma {:induction false} EveryPageAsks(
      visits: seq<Visit>, shown: seq<Response>, i: nat, posted: Form, attempt: SignIn,
      parse: string -> Parsed, serialize: seq<Pair> -> string)
    requires IsHistory(visits, shown, parse, serialize) && i < |shown|
    requires shown[0] == LoginResponse(posted, attempt)
    ensures AsksFor(shown[i], OwedAt(visits, i, OwedBy(attempt)))
    decreases i
  {
    if i == 0 {
      LoginKeeps(posted, attempt);
    } else {
      var visit := visits[i - 1];
      assert IsVisit(shown, visit, i - 1, parse, serialize);
      EveryPageAsks(visits, shown, visit.from, posted, attempt, parse, serialize);
      NextAsks(shown[visit.from], visit.post, OwedAt(visits, visit.from, OwedBy(attempt)), parse, serialize);
    }
  }

  /** On the way to this page a second factor was right, or a new sign-in accepted. */
  predicate ShowedSecondFactor(visits: seq<Visit>, i: nat)
    requires InOrder(visits) && i <= |visits|
    decreases i
  {
    i > 0 && (visits[i - 1].post == Verify(Right)
              || (visits[i - 1].post.Enter? && visits[i - 1].post.attempt.Accepted?)
              || ShowedSecondFactor(visits, visits[i - 1].from))
  }

  predicate ChangedPassword(visits: seq<Visit>, i: nat)
    requires InOrder(visits) && i <= |visits|
    decreases i
  {
    i > 0 && (visits[i - 1].post == ChangeTo(Changed) || ChangedPassword(visits, visits[i - 1].from))
  }

  /** While neither has happened, what is owed keeps the sign-in from settling. */
  lemma {:induction false} OwedUntilShown(visits: seq<Visit>, i: nat)
    requires InOrder(visits) && i <= |visits| && !ShowedSecondFactor(visits, i)
    requires forall k | 0 <= k < |visits| && visits[k].post.ChangeTo? ::
               OwedAt(visits, visits[k].from, SecondFactor) == NewPassword
    ensures OwedAt(visits, i, SecondFactor) != NoMore && OwedAt(visits, i, SecondFactor) != NewPassword
    decreases i
  {
    if i > 0 {
      OwedUntilShown(visits, visits[i - 1].from);
    }
  }

  lemma PostFitsOwed(visits: seq<Visit>, shown: seq<Response>, k: nat, posted: Form, attempt: SignIn,
                     parse: string -> Parsed, serialize: seq<Pair> -> string)
    requires IsHistory(visits, shown, parse, serialize) && k < |visits|
    requires shown[0] == LoginResponse(posted, attempt)
    ensures var owed := OwedAt(visits, visits[k].from, OwedBy(attempt));
            && (visits[k].post.ChangeTo? ==> owed == NewPassword)
            && (visits[k].post.Verify? || visits[k].post.SwitchForm? ==> owed == SecondFactor)
            && (visits[k].post.Enter? ==> owed == SignInAgain)
  {
    assert IsVisit(shown, visits[k], k, parse, serialize);
    EveryPageAsks(visits, shown, visits[k].from, posted, attempt, parse, serialize);
  }

  /** Where the password alone was not enough, no history settles without the second factor
      or another sign-in. */
  lemma SecondFactorIsAsked(
      visits: seq<Visit>, shown: seq<Response>, i: nat, posted: Form, mustChange: bool,
      parse: string -> Parsed, serialize: seq<Pair> -> string)
    requires IsHistory(visits, shown, parse, serialize) && i < |shown| && shown[i].Settled?
    requires shown[0] == LoginResponse(posted, Accepted(true, mustChange))
    ensures ShowedSecondFactor(visits, i)
  {
    var attempt := Accepted(true, mustChange);
    EveryPageAsks(visits, shown, i, posted, attempt, parse, serialize);
    if !ShowedSecondFactor(visits, i) {
      forall k | 0 <= k < |visits| && visits[k].post.ChangeTo?
        ensures OwedAt(visits, visits[k].from, SecondFactor) == NewPassword
      {
        PostFitsOwed(visits, shown, k, posted, attempt, parse, serialize);
      }
      OwedUntilShown(visits, i);
    }
  }

  lemma {:induction false} OwedUntilChanged(visits: seq<Visit>, i: nat)
    requires InOrder(visits) && i <= |visits| && !ChangedPassword(visits, i)
    requires forall k | 0 <= k < |visits| && OwedAt(visits, visits[k].from, NewPassword) == NewPassword ::
               visits[k].post.ChangeTo?
    ensures OwedAt(visits, i, NewPassword) == NewPassword
    decreases i
  {
    if i > 0 {
      OwedUntilChanged(visits, visits[i - 1].from);
    }
  }

  /** Where the password has to be changed, no history settles without that. */
  lemma NewPasswordIsAsked(
      visits: seq<Visit>, shown: seq<Response>, i: nat, posted: Form,
      parse: string -> Parsed, serialize: seq<Pair> -> string)
    requires IsHistory(visits, shown, parse, serialize) && i < |shown| && shown[i].Settled?
    requires shown[0] == LoginResponse(posted, Accepted(false, true))
    ensures ChangedPassword(visits, i)
  {
    var attempt := Accepted(false, true);
    EveryPageAsks(visits, shown, i, posted, attempt, parse, serialize);
    if !ChangedPassword(visits, i) {
      forall k | 0 <= k < |visits| && OwedAt(visits, visits[k].from, NewPassword) == NewPassword
        ensures visits[k].post.ChangeTo?
      {
        PostFitsOwed(visits, shown, k, posted, attempt, parse, serialize);
      }
      OwedUntilChanged(visits, i);
    }
  }

  /** The link shows the other of the two second-factor forms. */
  lemma SwitchShowsTheOtherForm(response: Response, parse: string -> Parsed, serialize: seq<Pair> -> string)
    requires IsPage(response, TwoFactor)
    ensures IsPage(Next(response, SwitchForm, parse, serialize), TwoFactor)
    ensures Next(response, SwitchForm, parse, serialize).params.backup == !response.params.backup
  {
  }

  // ---------------------------------------------------------- where it may lead back

  /** Whatever is given, what comes out is a path of this host, or else the fallback; and a
      path of this host comes out as it is. */
  lemma SafeReturnToIsLocal(value: string, fallback: string)
    ensures SafeReturnTo(value, fallback) == if IsLocalPath(Trim(value)) then Trim(value) else fallback
  {
    var s := Trim(value);
    if |s| >= 2 {
      assert "//" <= s <==> s[0] == '/' && s[1] == '/';
      assert "/\\" <= s <==> s[0] == '/' && s[1] == '\\';
    }
    SchemeMark(s);
  }

  predicate SchemeAt(s: string, i: int) {
    0 <= i < |s| - 2 && s[i] == ':' && s[i + 1] == '/' && s[i + 2] == '/'
  }

  /** One slash in front, no second one nor a backslash behind it, and no scheme anywhere. */
  ghost predicate IsLocalPath(s: string) {
    && s != "" && s[0] == '/'
    && (|s| > 1 ==> s[1] != '/' && s[1] != '\\')
    && forall i :: !SchemeAt(s, i)
  }

  lemma SchemeMark(s: string)
    ensures Contains(s, "://") <==> exists i :: SchemeAt(s, i)
  {
    forall i | 0 <= i <= |s| ensures "://" <= s[i..] <==> SchemeAt(s, i) {
      if i < |s| - 2 {
        assert s[i..][..3] == [s[i], s[i + 1], s[i + 2]];
      }
    }
    if exists i :: SchemeAt(s, i) {
      var i :| SchemeAt(s, i);
      ContainsAt(s, "://", i);
    }
  }

  /** A page holds no destination but a path of this host, whatever its address says. */
  lemma PagesHoldLocalPaths(params: Params, parse: string -> Parsed, serialize: seq<Pair> -> string)
    ensures var r := Rendered(params, parse, serialize).returnTo; r == "" || IsLocalPath(r)
  {
    SafeReturnToIsLocal(OrEmpty(SearchString(Lookup(SearchOf(params, parse), "returnTo"))), "");
  }

  /** An inline refusal at `/login` keeps the destination and drops the request, so the
      chain can only start once the password is accepted. */
  lemma RefusalDropsTheRequest(posted: Form, code: string)
    requires !HasStatusPage(code)
    ensures LoginResponse(posted, Refused(code)).params.oauthQuery.None?
    ensures OrEmpty(LoginResponse(posted, Refused(code)).params.returnTo) == SafeReturnTo(Trim(posted.returnTo), "")
  {
  }
}
