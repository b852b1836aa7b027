/** The Aiklyra SDK client: the checks `analyse` makes on its arguments before sending
    anything, the role filter it applies to the conversations, the URL it posts to, and
    how it turns the server's reply into a result or one of its exception kinds. */
module Client {
  import opened Results

  // ---------------------------------------------------------------------------
  // Values exchanged with the server

  /** One chat message, e.g. {"role": "user", "content": "..."}. */
  type Message = map<string, string>
  /** `conversation_data`: conversation id to its messages, in order. */
  type Conversations = map<string, seq<Message>>

  /** The `conversation_data` argument: a dict, or any other Python value. */
  datatype ConversationArg = Dict(conversations: Conversations) | NotADict

  /** The body of the request (`ConversationFlowAnalysisRequest`). */
  datatype Payload = Payload(
    conversationData: Conversations,
    minClusters: int,
    maxClusters: int,
    topKNearestToCentroid: int,
    role: string)

  /** What `requests.post` is called with. */
  datatype Request = Request(url: string, headers: map<string, string>, payload: Payload)

  /** What `requests.post` gives back: the exception it raised, or a response with its
      status code, the outcome of parsing a 200 body into the analysis response (a parse
      failure carries its message), the "detail" field of the JSON body if it has one,
      and the raw body text. */
  datatype Reply<R> =
    | RequestException(reason: string)
    | Response(status: int, parsed: Result<R, string>, detail: Option<string>, text: string)

  /** The exceptions `analyse` raises. */
  datatype ClientError =
    | ValidationError(message: string)   // ValidationError
    | MissingRoleKey                     // KeyError: a message without a "role" key
    | RequestFailed(reason: string)      // AiklyraAPIError("Request failed: ...")
    | AnalysisError(reason: string)      // AnalysisError("Failed to parse response: ...")
    | InvalidApiKey                      // InvalidAPIKeyError
    | InsufficientCredits                // InsufficientCreditsError
    | Forbidden(detail: string)          // AiklyraAPIError("Forbidden: ...")
    | HttpError(status: int, text: string) // AiklyraAPIError("Error <status>: <text>")

  const BaseAnalyseEndpoint: string := "conversation-flow-analysis/base_analyse-conversation-flow"
  const DefaultBaseUrl: string := "http://localhost:8002"
  const AnyRole: string := "Any"

  const NotADictMessage: string := "conversation_data must be a dictionary."
  const NotPositiveMessage: string := "min_clusters and max_clusters must be positive integers."
  const OrderMessage: string := "Max clusters needs to be greater than Min Clusters"

  // ---------------------------------------------------------------------------
  // Strings

  /** `s.rstrip('/')`. */
  function StripTrailingSlashes(s: string): (r: string)
    ensures |r| <= |s| && r == s[..|r|]
    ensures r == [] || r[|r| - 1] != '/'
    ensures forall i | |r| <= i < |s| :: s[i] == '/'
  {
    if s != [] && s[|s| - 1] == '/' then StripTrailingSlashes(s[..|s| - 1]) else s
  }

  /** Stripping twice strips nothing more. */
  lemma StripIdempotent(s: string)
    ensures StripTrailingSlashes(StripTrailingSlashes(s)) == StripTrailingSlashes(s)
  {
  }

  /** `n` slashes. */
  function Slashes(n: nat): string {
    if n == 0 then [] else Slashes(n - 1) + "/"
  }

  /** Adding slashes at the end does not change the stripped string. */
  lemma {:induction false} StripIgnoresSlashes(s: string, n: nat)
    ensures StripTrailingSlashes(s + Slashes(n)) == StripTrailingSlashes(s)
  {
    if n > 0 {
      var t := s + Slashes(n);
      assert t == (s + Slashes(n - 1)) + "/";
      assert t[..|t| - 1] == s + Slashes(n - 1);
      StripIgnoresSlashes(s, n - 1);
    } else {
      assert s + Slashes(0) == s;
    }
  }

  /** Python's `sub in s` on strings. */
  function Contains(s: string, sub: string): bool {
    (|sub| <= |s| && s[..|sub|] == sub) || (s != [] && Contains(s[1..], sub))
  }

  /** `sub` occurs in `s` starting at position `i`. */
  predicate OccursAt(s: string, sub: string, i: int) {
    0 <= i <= |s| - |sub| && s[i..i + |sub|] == sub
  }

  /** `sub in s` holds exactly when `sub` occurs at some position of `s`. */
  lemma {:induction false} ContainsSpec(s: string, sub: string)
    ensures Contains(s, sub) <==> exists i :: OccursAt(s, sub, i)
  {
    if |sub| <= |s| && s[..|sub|] == sub {
      assert OccursAt(s, sub, 0);
    }
    if s != [] {
      ContainsSpec(s[1..], sub);
      if Contains(s[1..], sub) {
        var i :| OccursAt(s[1..], sub, i);
        assert s[i + 1..i + 1 + |sub|] == s[1..][i..i + |sub|];
        assert OccursAt(s, sub, i + 1);
      }
      if exists i :: OccursAt(s, sub, i) {
        var i :| OccursAt(s, sub, i);
        if i > 0 {
          assert s[1..][i - 1..i - 1 + |sub|] == s[i..i + |sub|];
          assert OccursAt(s[1..], sub, i - 1);
        }
      }
    } else if exists i :: OccursAt(s, sub, i) {
      var i :| OccursAt(s, sub, i);
      assert i == 0 && sub == [];
    }
  }

  function DigitChar(d: nat): char
    requires d < 10
  {
    ('0' as int + d) as char
  }

  function DigitValue(c: char): nat {
    if '0' <= c <= '9' then (c as int - '0' as int) as nat else 0
  }

  /** `str(n)` for a non-negative integer: digits only, and no leading zero except for 0 itself. */
  function NatToString(n: nat): (r: string)
    ensures |r| >= 1
    ensures forall i | 0 <= i < |r| :: '0' <= r[i] <= '9'
    ensures n == 0 <==> r == "0"
    ensures r[0] == '0' ==> r == "0"
    decreases n
  {
    if n < 10 then [DigitChar(n)] else NatToString(n / 10) + [DigitChar(n % 10)]
  }

  /** Reads decimal digits back into the number they denote. */
  function ParseNat(s: string): nat
    decreases |s|
  {
    if s == [] then 0 else 10 * ParseNat(s[..|s| - 1]) + DigitValue(s[|s| - 1])
  }

  /** The decimal rendering of a status code reads back as that code. */
  lemma {:induction false} NatToStringRoundTrip(n: nat)
    ensures ParseNat(NatToString(n)) == n
    decreases n
  {
    if n >= 10 {
      var q, d := n / 10, n % 10;
      NatToStringRoundTrip(q);
      var s := NatToString(n);
      assert s == NatToString(q) + [DigitChar(d)];
      assert s[..|s| - 1] == NatToString(q) && DigitValue(s[|s| - 1]) == d;
      assert ParseNat(s) == 10 * q + d;
    }
  }

  /** `str(n)` for any integer. */
  function IntToString(n: int): string {
    if n < 0 then "-" + NatToString(-n) else NatToString(n)
  }

  /** The text of the exception. */
  function ErrorMessage(e: ClientError): string {
    match e
    case ValidationError(m) => m
    case MissingRoleKey => "'role'"
    case RequestFailed(reason) => "Request failed: " + reason
    case AnalysisError(reason) => "Failed to parse response: " + reason
    case InvalidApiKey => "Invalid API Key."
    case InsufficientCredits => "Insufficient credits."
    case Forbidden(detail) => "Forbidden: " + detail
    case HttpError(status, text) => "Error " + IntToString(status) + ": " + text
  }

  /** An unexpected status code is named in the message as its decimal digits, which read
      back as the code, right after "Error ". */
  lemma HttpErrorMessage(status: nat, text: string)
    ensures var m := ErrorMessage(HttpError(status, text));
      exists k :: 6 < k <= |m| && m[..6] == "Error " && ParseNat(m[6..k]) == status
        && (forall i | 6 <= i < k :: '0' <= m[i] <= '9') && (m[6] == '0' ==> k == 7)
        && m[k..] == ": " + text
  {
    var m := ErrorMessage(HttpError(status, text));
    var digits := NatToString(status);
    NatToStringRoundTrip(status);
    var k := 6 + |digits|;
    assert m == "Error " + digits + (": " + text);
    Pieces("Error ", digits, ": " + text);
    assert m[6] == m[6..k][0];
  }

  /** A concatenation split after its first piece. */
  lemma SplitAfter(a: string, b: string, c: string)
    ensures (a + b + c)[..|a|] == a && (a + b + c)[|a|..] == b + c
  {
  }

  /** The three pieces of a concatenation are its slices at the pieces' lengths. */
  lemma Pieces(a: string, b: string, c: string)
    ensures var m := a + b + c;
      m[..|a|] == a && m[|a|..|a| + |b|] == b && m[|a| + |b|..] == c
  {
  }

  /** A 500 reply's message begins with "Error 500". */
  lemma ServerErrorMessage(text: string)
    ensures ErrorMessage(HttpError(500, text))[..9] == "Error 500"
  {
    assert NatToString(500) == NatToString(50) + "0";
    assert NatToString(50) == NatToString(5) + "0";
    assert NatToString(5) == "5";
  }

  // ---------------------------------------------------------------------------
  // Argument validation

  /** The checks made before anything else, in order: the data must be a dict, both cluster
      bounds positive, and the minimum at most the maximum. None when all pass. */
  function ValidateArgs(data: ConversationArg, minClusters: int, maxClusters: int): Option<ClientError> {
    if !data.Dict? then Some(ValidationError(NotADictMessage))
    else if minClusters <= 0 || maxClusters <= 0 then Some(ValidationError(NotPositiveMessage))
    else if minClusters > maxClusters then Some(ValidationError(OrderMessage))
    else None
  }

  /** The arguments pass exactly when the data is a dict and 0 < min <= max (so equal bounds
      are accepted); any failure is a ValidationError, and its message names the first
      check that fails. */
  lemma ValidateArgsSpec(data: ConversationArg, minClusters: int, maxClusters: int)
    ensures ValidateArgs(data, minClusters, maxClusters).None? <==> data.Dict? && 0 < minClusters <= maxClusters
    ensures ValidateArgs(data, minClusters, maxClusters).Some? ==>
      ValidateArgs(data, minClusters, maxClusters).value.ValidationError?
    ensures data.NotADict? ==> ValidateArgs(data, minClusters, maxClusters) == Some(ValidationError(NotADictMessage))
    ensures data.Dict? && (minClusters <= 0 || maxClusters <= 0) ==>
      ValidateArgs(data, minClusters, maxClusters) == Some(ValidationError(NotPositiveMessage))
    ensures data.Dict? && 0 < maxClusters < minClusters ==>
      ValidateArgs(data, minClusters, maxClusters) == Some(ValidationError(OrderMessage))
  {
  }

  // ---------------------------------------------------------------------------
  // Role filter

  /** Whether `m` has a "role" equal to `role`. */
  predicate HasRole(m: Message, role: string) {
    "role" in m && m["role"] == role
  }

  /** `[msg for msg in conv if msg["role"] == role]`; None where a message has no "role" key
      and Python raises KeyError. */
  function KeepRole(conv: seq<Message>, role: string): Option<seq<Message>>
    decreases |conv|
  {
    if conv == [] then Some([])
    else if "role" !in conv[0] then None
    else
      match KeepRole(conv[1..], role)
      case None => None
      case Some(rest) => Some(if conv[0]["role"] == role then [conv[0]] + rest else rest)
  }

  /** `a` is `b` with some elements left out, the rest in their order. */
  predicate IsSubsequence<T(==)>(a: seq<T>, b: seq<T>)
    decreases |b|
  {
    if a == [] then true
    else if b == [] then false
    else if a[0] == b[0] then IsSubsequence(a[1..], b[1..])
    else IsSubsequence(a, b[1..])
  }

  /** The filter fails exactly when some message has no "role" key. */
  lemma {:induction false} KeepRoleFails(conv: seq<Message>, role: string)
    ensures KeepRole(conv, role).None? <==> MissingRole(conv)
  {
    if conv != [] {
      KeepRoleFails(conv[1..], role);
      if exists i :: 0 <= i < |conv[1..]| && "role" !in conv[1..][i] {
        var i :| 0 <= i < |conv[1..]| && "role" !in conv[1..][i];
        assert "role" !in conv[i + 1];
      }
      if exists i :: 0 <= i < |conv| && "role" !in conv[i] {
        var i :| 0 <= i < |conv| && "role" !in conv[i];
        if i > 0 {
          assert "role" !in conv[1..][i - 1];
        }
      }
    }
  }

  /** The kept messages all have the role, every message with the role is kept as often as it
      occurs, and the kept messages are in their original order. */
  lemma {:induction false} KeepRoleSpec(conv: seq<Message>, role: string)
    requires KeepRole(conv, role).Some?
    ensures forall m | m in KeepRole(conv, role).value :: HasRole(m, role)
    ensures forall m | HasRole(m, role) :: multiset(KeepRole(conv, role).value)[m] == multiset(conv)[m]
    ensures IsSubsequence(KeepRole(conv, role).value, conv)
  {
    if conv != [] {
      var rest := KeepRole(conv[1..], role).value;
      KeepRoleSpec(conv[1..], role);
      assert conv == [conv[0]] + conv[1..];
      assert multiset(conv) == multiset{conv[0]} + multiset(conv[1..]);
      if conv[0]["role"] == role {
        var r := [conv[0]] + rest;
        assert r[1..] == rest;
        assert multiset(r) == multiset{conv[0]} + multiset(rest);
      } else if rest != [] {
        assert HasRole(rest[0], role);
      }
    }
  }

  /** Filtering an already filtered conversation changes nothing. */
  lemma {:induction false} KeepRoleIdempotent(conv: seq<Message>, role: string)
    requires KeepRole(conv, role).Some?
    ensures KeepRole(KeepRole(conv, role).value, role) == KeepRole(conv, role)
  {
    if conv != [] {
      KeepRoleIdempotent(conv[1..], role);
      var rest := KeepRole(conv[1..], role).value;
      if conv[0]["role"] == role {
        assert ([conv[0]] + rest)[1..] == rest;
      }
    }
  }

  /** A conversation where every message has the role is kept whole. */
  lemma {:induction false} KeepRoleAll(conv: seq<Message>, role: string)
    requires forall i | 0 <= i < |conv| :: HasRole(conv[i], role)
    ensures KeepRole(conv, role) == Some(conv)
  {
    if conv != [] {
      KeepRoleAll(conv[1..], role);
      assert conv == [conv[0]] + conv[1..];
    }
  }

  /** The conversation data after the role filter, or None for its KeyError: the same
      conversation ids, each with its kept messages. */
  function RoleFiltered(data: Conversations, role: string): Option<Conversations> {
    if forall id | id in data :: KeepRole(data[id], role).Some? then
      Some(map id | id in data :: KeepRole(data[id], role).value)
    else
      None
  }

  /** Some message of the conversation has no "role" key. */
  predicate MissingRole(conv: seq<Message>) {
    exists i :: 0 <= i < |conv| && "role" !in conv[i]
  }

  /** The role filter fails exactly when some message of some conversation has no "role";
      otherwise it keeps every conversation id, possibly with no messages left, and each
      keeps exactly its messages with the role, in order. */
  lemma RoleFilteredSpec(data: Conversations, role: string)
    ensures RoleFiltered(data, role).None? <==> exists id :: id in data && MissingRole(data[id])
    ensures RoleFiltered(data, role).Some? ==>
      && RoleFiltered(data, role).value.Keys == data.Keys
      && forall id | id in data ::
           && (forall m | m in RoleFiltered(data, role).value[id] :: HasRole(m, role))
           && (forall m | HasRole(m, role) :: multiset(RoleFiltered(data, role).value[id])[m] == multiset(data[id])[m])
           && IsSubsequence(RoleFiltered(data, role).value[id], data[id])
  {
    forall id | id in data
      ensures KeepRole(data[id], role).None? <==> MissingRole(data[id])
    {
      KeepRoleFails(data[id], role);
    }
    forall id | id in data && KeepRole(data[id], role).Some?
      ensures var kept := KeepRole(data[id], role).value;
        && (forall m | m in kept :: HasRole(m, role))
        && (forall m | HasRole(m, role) :: multiset(kept)[m] == multiset(data[id])[m])
        && IsSubsequence(kept, data[id])
    {
      KeepRoleSpec(data[id], role);
    }
  }

  /** The filtered dict once the ids in `done` have been processed. */
  function FilteredSoFar(data: Conversations, done: set<string>, role: string): Conversations
    requires forall id | id in done :: id in data && KeepRole(data[id], role).Some?
  {
    map id | id in done :: KeepRole(data[id], role).value
  }

  /** The role filter loop: a new dict with, for each conversation id, the messages of that
      conversation that have the role. */
  method FilterByRole(data: Conversations, role: string) returns (r: Option<Conversations>)
    ensures r == RoleFiltered(data, role)
  {
    var filteredByRole: Conversations := map[];
    var ids := data.Keys;
    while ids != {}
      invariant ids <= data.Keys
      invariant forall id | id in data.Keys - ids :: KeepRole(data[id], role).Some?
      invariant filteredByRole == FilteredSoFar(data, data.Keys - ids, role)
      decreases ids
    {
      var convId :| convId in ids;
      var kept := KeepRole(data[convId], role);
      if kept.None? {
        return None;
      }
      assert data.Keys - (ids - {convId}) == (data.Keys - ids) + {convId};
      filteredByRole := filteredByRole[convId := kept.value];
      ids := ids - {convId};
    }
    assert data.Keys - ids == data.Keys;
    r := Some(filteredByRole);
  }

  /** The conversation data that is sent: unchanged for role "Any", filtered otherwise. */
  function SentConversations(data: Conversations, role: string): Option<Conversations> {
    if role == AnyRole then Some(data) else RoleFiltered(data, role)
  }

  // ---------------------------------------------------------------------------
  // URL and reply

  /** `f"{base_url}/{BASE_ANALYSE_ENDPOINT}"`. */
  function RequestUrl(baseUrl: string): string {
    baseUrl + "/" + BaseAnalyseEndpoint
  }

  /** The request URL is the stripped base URL, one slash, then the endpoint; slashes
      at the end of the configured base URL make no difference. */
  lemma RequestUrlSpec(baseUrl: string, n: nat)
    ensures var url := RequestUrl(StripTrailingSlashes(baseUrl));
      && url[..|StripTrailingSlashes(baseUrl)|] == StripTrailingSlashes(baseUrl)
      && url[|StripTrailingSlashes(baseUrl)|..] == "/" + BaseAnalyseEndpoint
      && (StripTrailingSlashes(baseUrl) == [] || url[|StripTrailingSlashes(baseUrl)| - 1] != '/')
    ensures RequestUrl(StripTrailingSlashes(baseUrl + Slashes(n))) == RequestUrl(StripTrailingSlashes(baseUrl))
  {
    var b := StripTrailingSlashes(baseUrl);
    SplitAfter(b, "/", BaseAnalyseEndpoint);
    StripIgnoresSlashes(baseUrl, n);
  }

  /** The outcome of `analyse` once the request has been sent, from the server's reply. */
  function Classify<R>(reply: Reply<R>): Result<R, ClientError> {
    match reply
    case RequestException(reason) => Err(RequestFailed(reason))
    case Response(status, parsed, detail, text) =>
      if status == 200 then
        match parsed
        case Ok(v) => Ok(v)
        case Err(reason) => Err(AnalysisError(reason))
      else if status == 403 then
        var d := detail.GetOr("");
        if Contains(d, "Invalid API Key") then Err(InvalidApiKey)
        else if Contains(d, "Insufficient credits") then Err(InsufficientCredits)
        else Err(Forbidden(d))
      else Err(HttpError(status, text))
  }

  /** Only a 200 whose body parses gives a result, and it is the parsed body; a 200 that does
      not parse is an AnalysisError; a transport failure is a "Request failed" error. */
  lemma ClassifySuccess<R>(reply: Reply<R>)
    ensures Classify(reply).Ok? <==> reply.Response? && reply.status == 200 && reply.parsed.Ok?
    ensures Classify(reply).Ok? ==> Classify(reply).value == reply.parsed.value
    ensures reply.Response? && reply.status == 200 && reply.parsed.Err? ==>
      Classify(reply) == Err(AnalysisError(reply.parsed.error))
    ensures reply.RequestException? ==> Classify(reply) == Err(RequestFailed(reply.reason))
  {
  }

  /** A 403 is classified by its detail (absent counts as empty): "Invalid API Key" anywhere in
      it wins over "Insufficient credits", and a detail with neither is reported as Forbidden. */
  lemma ClassifyForbidden<R>(status: int, parsed: Result<R, string>, detail: Option<string>, text: string)
    requires status == 403
    ensures var r := Classify(Response(status, parsed, detail, text));
      var d := detail.GetOr("");
      && (r == Err(InvalidApiKey) <==> exists i :: OccursAt(d, "Invalid API Key", i))
      && (r == Err(InsufficientCredits) <==>
            !Contains(d, "Invalid API Key") && exists i :: OccursAt(d, "Insufficient credits", i))
      && (r.Err? && r.error.Forbidden? <==> !Contains(d, "Invalid API Key") && !Contains(d, "Insufficient credits"))
      && (r.Err? && r.error.Forbidden? ==> r.error.detail == d)
  {
    var d := detail.GetOr("");
    ContainsSpec(d, "Invalid API Key");
    ContainsSpec(d, "Insufficient credits");
  }

  /** Every status other than 200 and 403 is an error carrying that status and the body text. */
  lemma ClassifyOther<R>(status: int, parsed: Result<R, string>, detail: Option<string>, text: string)
    requires status != 200 && status != 403
    ensures Classify(Response(status, parsed, detail, text)) == Err(HttpError(status, text))
    ensures ErrorMessage(Classify(Response(status, parsed, detail, text)).error) == "Error " + IntToString(status) + ": " + text
  {
  }

  // ---------------------------------------------------------------------------
  // The client

  class AiklyraClient {
    const apiKey: string
    const baseUrl: string
    const headers: map<string, string>

    /** `AiklyraClient(api_key, base_url)`: the base URL loses its trailing slashes, and every
        request carries the key as a bearer token and a JSON content type. */
    constructor (apiKey: string, baseUrl: string := DefaultBaseUrl)
      ensures this.apiKey == apiKey
      ensures this.baseUrl == StripTrailingSlashes(baseUrl)
      ensures this.headers == map["Authorization" := "Bearer " + apiKey, "Content-Type" := "application/json"]
    {
      this.apiKey := apiKey;
      this.baseUrl := StripTrailingSlashes(baseUrl);
      this.headers := map["Authorization" := "Bearer " + apiKey, "Content-Type" := "application/json"];
    }

    /** `analyse(...)`: validates the arguments, filters the conversations by role unless the
        role is "Any", posts the request (`reply` is what the server answers) and classifies
        the reply. `sent` is the request made, None when it fails before posting. */
    method Analyse<R>(data: ConversationArg, reply: Reply<R>, minClusters: int := 5, maxClusters: int := 10,
                      topKNearestToCentroid: int := 10, role: string := AnyRole)
      returns (sent: Option<Request>, r: Result<R, ClientError>)
      ensures ValidateArgs(data, minClusters, maxClusters).Some? ==>
        sent.None? && r == Err(ValidateArgs(data, minClusters, maxClusters).value)
      ensures ValidateArgs(data, minClusters, maxClusters).None? && SentConversations(data.conversations, role).None? ==>
        sent.None? && r == Err(MissingRoleKey)
      ensures ValidateArgs(data, minClusters, maxClusters).None? && SentConversations(data.conversations, role).Some? ==>
        && sent == Some(Request(RequestUrl(baseUrl), headers,
             Payload(SentConversations(data.conversations, role).value, minClusters, maxClusters, topKNearestToCentroid, role)))
        && r == Classify(reply)
    {
      var invalid := ValidateArgs(data, minClusters, maxClusters);
      if invalid.Some? {
        return None, Err(invalid.value);
      }
      var conversationData := data.conversations;
      if role != AnyRole {
        var filtered := FilterByRole(conversationData, role);
        if filtered.None? {
          return None, Err(MissingRoleKey);
        }
        conversationData := filtered.value;
      }
      var url := RequestUrl(baseUrl);
      var payload := Payload(conversationData, minClusters, maxClusters, topKNearestToCentroid, role);
      sent := Some(Request(url, headers, payload));
      r := Classify(reply);
    }
  }
}
