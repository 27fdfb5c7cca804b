/**
 One request through the two hooks of the addon: `requestheaders` swaps the client's credential for the
 host's as the headers arrive, `request` judges a push once the body is there and takes the credential
 back if it refuses.
 */
module EgressFlow {
  import opened Prelude
  import opened Utf8
  import opened PktFraming
  import opened PktLine
  import opened PushJudge

  const API_HOST: string := "api.github.com"
  const GIT_HOST: string := "github.com"

  /** A header value: the client's own text, or the host credential in one of its two schemes. */
  datatype Header = Client(text: string) | HostBearer(token: string) | HostBasic(token: string)

  type Headers = map<string, Header>

  const CREDENTIAL_NAMES: set<string> := {"authorization", "proxy-authorization"}

  /** Header names are stored lower-cased. `body` is None when it was streamed past the proxy. */
  class Flow {
    const host: string
    const path: string
    const body: Option<seq<byte>>
    var headers: Headers
    var response: Option<nat>

    constructor (host: string, path: string, body: Option<seq<byte>>, headers: Headers)
      ensures this.host == host && this.path == path && this.body == body && this.headers == headers && response == None
    {
      this.host, this.path, this.body := host, path, body;
      this.headers, this.response := headers, None;
    }
  }

  // ---------------------------------------------------------------- the sentinel of api.github.com

  /** Where the first run of non-blank characters ends. */
  function WordEnd(py: Py, s: string, i: nat): (r: nat)
    requires i <= |s|
    ensures i <= r <= |s| && (r < |s| ==> py.isSpace(s[r])) && forall k :: i <= k < r ==> !py.isSpace(s[k])
    decreases |s| - i
  {
    if i < |s| && !py.isSpace(s[i]) then WordEnd(py, s, i + 1) else i
  }

  function PastFirst(s: string, c: char): string
  {
    if s == [] then [] else if s[0] == c then s[1..] else PastFirst(s[1..], c)
  }

  /** A scheme, blanks and a value; a password after the first colon when the scheme is basic. */
  function Credential(py: Py, text: string): Option<string>
  {
    var raw := Strip(py, text);
    var end := WordEnd(py, raw, 0);
    var scheme, value := py.lower(raw[..end]), Strip(py, raw[end..]);
    if value == "" then None
    else if scheme == "bearer" || scheme == "token" then Some(value)
    else if scheme == "basic" then
      var decoded := py.decode64(value);
      if decoded.None? || ':' !in decoded.value then None
      else
        var password := Strip(py, PastFirst(decoded.value, ':'));
        if password == "" then None else Some(password)
    else None
  }

  function CredentialIn(py: Py, headers: Headers, name: string): Option<string>
  {
    if name in headers && headers[name].Client? then Credential(py, headers[name].text) else None
  }

  /** What the client presents: the second header is read when the first yields nothing. */
  function Presented(py: Py, headers: Headers): Option<string>
  {
    var first := CredentialIn(py, headers, "authorization");
    if first.Some? then first else CredentialIn(py, headers, "proxy-authorization")
  }

  const SENTINEL: string := "proxy-managed-no-secret"

  datatype SentinelVerdict = Attested | Absent | Unknown | RegistryUnreadable

  /** The bare placeholder is accepted before the registry is looked at. */
  function JudgeSentinel(presented: Option<string>, nonces: Option<set<string>>): SentinelVerdict
  {
    if presented == Some(SENTINEL) then Attested
    else if presented.None? || presented.value == "" then Absent
    else if nonces.None? then RegistryUnreadable
    else if exists n :: n in nonces.value && presented.value == SENTINEL + "-" + n then Attested
    else Unknown
  }

  /** A request is attested exactly by the bare placeholder or by the placeholder with a live nonce. */
  lemma AttestedExactly(presented: Option<string>, nonces: Option<set<string>>)
    ensures JudgeSentinel(presented, nonces) == Attested <==>
      presented == Some("proxy-managed-no-secret")
        || (nonces.Some? && exists n :: n in nonces.value && presented == Some("proxy-managed-no-secret" + "-" + n))
    ensures JudgeSentinel(presented, nonces) == Absent <==> presented.None? || presented == Some("")
    ensures JudgeSentinel(presented, nonces) == RegistryUnreadable <==>
      nonces.None? && presented !in {None, Some(""), Some("proxy-managed-no-secret")}
  {
  }

  function HostCredential(host: string, token: string): Header
  {
    if host == API_HOST then HostBearer(token) else HostBasic(token)
  }

  /** The API takes a bearer token, git basic authentication. */
  lemma CredentialsOfHosts(token: string)
    ensures HostCredential("api.github.com", token) == HostBearer(token)
    ensures HostCredential("github.com", token) == HostBasic(token)
  {
  }

  /** A scheme this reader knows, a blank and a value. */
  ghost predicate Presents(py: Py, text: string, scheme: string, value: string)
  {
    && text == scheme + " " + value && py.isSpace(' ')
    && scheme != "" && (forall i :: 0 <= i < |scheme| ==> !py.isSpace(scheme[i]))
    && value != "" && !py.isSpace(value[0]) && !py.isSpace(value[|value| - 1])
  }

  /** `Bearer` and `token` present their value, `Basic` the password after the first colon; other schemes nothing. */
  lemma CredentialExactly(py: Py, text: string, scheme: string, value: string)
    requires Presents(py, text, scheme, value)
    ensures py.lower(scheme) in {"bearer", "token"} ==> Credential(py, text) == Some(value)
    ensures py.lower(scheme) == "basic" ==>
      Credential(py, text) ==
        var decoded := py.decode64(value);
        if decoded.Some? && ':' in decoded.value && Strip(py, PastFirst(decoded.value, ':')) != ""
        then Some(Strip(py, PastFirst(decoded.value, ':'))) else None
    ensures py.lower(scheme) !in {"bearer", "token", "basic"} ==> Credential(py, text).None?
  {
    assert text[0] == scheme[0] && text[|text| - 1] == value[|value| - 1];
    StripKeeps(py, text);
    WordEndAt(py, text, 0, |scheme|);
    assert text[..|scheme|] == scheme && text[|scheme|..] == " " + value;
    StripBlank(py, value);
  }

  lemma {:induction false} WordEndAt(py: Py, s: string, i: nat, n: nat)
    requires i <= n < |s| && py.isSpace(s[n]) && forall k :: i <= k < n ==> !py.isSpace(s[k])
    ensures WordEnd(py, s, i) == n
    decreases n - i
  {
    if i < n { WordEndAt(py, s, i + 1, n); }
  }

  lemma StripBlank(py: Py, value: string)
    requires py.isSpace(' ') && value != "" && !py.isSpace(value[0]) && !py.isSpace(value[|value| - 1])
    ensures Strip(py, " " + value) == value
  {
    var s := " " + value;
    assert s[0] == ' ' && s[1..] == value;
    StripKeeps(py, value);
  }

  /** The password begins right after the first colon. */
  lemma {:induction false} PastFirstExactly(user: string, password: string)
    requires ':' !in user
    ensures PastFirst(user + ":" + password, ':') == password
  {
    var s := user + ":" + password;
    if user == "" {
      assert s[1..] == password;
    } else {
      assert s[1..] == user[1..] + ":" + password;
      PastFirstExactly(user[1..], password);
    }
  }

  /** What the client presents is read from either header, the first one first. */
  lemma PresentedExactly(py: Py, headers: Headers)
    ensures var a, b := CredentialIn(py, headers, "authorization"), CredentialIn(py, headers, "proxy-authorization");
      Presented(py, headers) == if a.Some? then a else b
  {
  }

  // ---------------------------------------------------------------- the two hooks

  /** Attach the host credential, unless there is none to attach or the sentinel refuses. */
  method RequestHeaders(flow: Flow, py: Py, token: Option<string>, armed: bool, nonces: Option<set<string>>)
    modifies flow
    ensures flow.host !in {API_HOST, GIT_HOST} ==>
      flow.headers == old(flow.headers) && flow.response == old(flow.response)
    ensures flow.host in {API_HOST, GIT_HOST} && token.None? ==>
      flow.headers == old(flow.headers) && flow.response == Some(503)
    ensures flow.host in {API_HOST, GIT_HOST} && token.Some? ==>
      if flow.host == API_HOST && armed && JudgeSentinel(Presented(py, old(flow.headers)), nonces) != Attested
      then flow.headers == old(flow.headers) && flow.response == Some(403)
      else flow.response == old(flow.response)
           && flow.headers == (old(flow.headers) - CREDENTIAL_NAMES)["authorization" := HostCredential(flow.host,
             token.value)]
  {
    if flow.host != API_HOST && flow.host != GIT_HOST { return; }
    if token.None? {
      flow.response := Some(503);
      return;
    }
    if flow.host == API_HOST && armed {
      var verdict := JudgeSentinel(Presented(py, flow.headers), nonces);
      if verdict != Attested {
        flow.response := Some(403);
        return;
      }
    }
    flow.headers := flow.headers - CREDENTIAL_NAMES;
    flow.headers := flow.headers["authorization" := HostCredential(flow.host, token.value)];
  }

  function Refs(commands: seq<Command>): seq<string>
  {
    seq(|commands|, i requires 0 <= i < |commands| => commands[i].ref)
  }

  /**
   What a push must be to leave the proxy: its body decodes, its owner matches, each of its commands is
   a plain branch update, and it lies in the declared perimeter.
   */
  ghost predicate MayPush(py: Py, scopeArmed: bool, registry: Registry, repo: string, body: Option<seq<byte>>)
  {
    && Commands(body).Some?
    && StaticBound(py, repo, Commands(body).value)
    && InPerimeter(py, scopeArmed, Declared(py, registry), repo, Refs(Commands(body).value))
  }

  /** Command `i` of the push is a non-deleting update of a branch that is no integration branch. */
  predicate PlainUpdate(c: Command)
  {
    && (exists k :: 0 <= k < |c.newId| && c.newId[k] != '0')
    && "refs/heads/" <= c.ref && c.ref != "refs/heads/" && c.ref != "refs/heads/main" && c.ref != "refs/heads/master"
  }

  /**
   The judgement in terms of the commands themselves: the body decodes; the owner is the one owner; every
   command is a plain update; and the perimeter is off, unreadable or empty, or names the repository and
   leaves its refs open or declares the ref of every single command for this repository.
   */
  lemma MayPushExactly(py: Py, scopeArmed: bool, registry: Registry, repo: string, body: Option<seq<byte>>)
    ensures MayPush(py, scopeArmed, registry, repo, body) <==>
      && Commands(body).Some?
      && var commands, declared, name := Commands(body).value, Declared(py, registry), py.lower(Strip(py, repo));
         && py.lower(Until(repo, '/')) == "senara-solutions"
         && (forall i :: 0 <= i < |commands| ==> PlainUpdate(commands[i]))
         && (|| !scopeArmed || declared.None? || declared.value == []
             || ((exists c :: c in declared.value && c.repo == name)
                 && (|| commands == [] || Couple(name, None) in declared.value
                     || forall i :: 0 <= i < |commands| ==>
                          Couple(name, Some(Strip(py, commands[i].ref))) in declared.value)))
  {
    if Commands(body).Some? {
      var commands := Commands(body).value;
      forall i | 0 <= i < |commands| ensures BranchUpdate(commands[i]) <==> PlainUpdate(commands[i]) {
        UpdatesAgree(commands[i]);
      }
      assert forall i :: 0 <= i < |commands| ==> Refs(commands)[i] == commands[i].ref;
      assert commands == [] <==> Refs(commands) == [];
    }
  }

  lemma UpdatesAgree(c: Command)
    ensures BranchUpdate(c) <==> PlainUpdate(c)
  {
    if "refs/heads/" <= c.ref && c.ref != "refs/heads/" { assert |c.ref| > 11; }
  }

  /** One command whose ref no entry of the repository declares is enough to refuse the push, wherever it stands. */
  lemma UndeclaredCommandIsRefused(py: Py, registry: Registry, repo: string, body: seq<byte>, i: nat)
    requires Commands(Some(body)).Some? && i < |Commands(Some(body)).value|
    requires Declared(py, registry).Some? && Declared(py, registry).value != []
    requires var declared, name := Declared(py, registry).value, py.lower(Strip(py, repo));
      && Couple(name, None) !in declared
      && Couple(name, Some(Strip(py, Commands(Some(body)).value[i].ref))) !in declared
    ensures !MayPush(py, true, registry, repo, Some(body))
  {
    MayPushExactly(py, true, registry, repo, Some(body));
  }

  ghost predicate Judged(flow: Flow, boundArmed: bool)
  {
    flow.host == GIT_HOST && boundArmed && ReceivePackRepo(flow.path).Some?
  }

  /** Judge a push; refuse by stripping the credential and answering 403. */
  method Request(flow: Flow, py: Py, boundArmed: bool, scopeArmed: bool, registry: Registry)
    modifies flow
    ensures if old(flow.response).None? && Judged(flow, boundArmed)
               && !MayPush(py, scopeArmed, registry, ReceivePackRepo(flow.path).value, flow.body)
      then flow.response == Some(403) && flow.headers == old(flow.headers) - CREDENTIAL_NAMES
      else flow.response == old(flow.response) && flow.headers == old(flow.headers)
  {
    if flow.response.Some? { return; }
    if flow.host != GIT_HOST || !boundArmed { return; }
    var repo := ReceivePackRepo(flow.path);
    if repo.None? { return; }
    var commands := RefCommands(flow.body);
    if commands.Some? {
      StaticBoundExactly(py, repo.value, commands.value);
      var verdict := PushVerdict(py, repo.value, commands.value);
      if verdict.Allow? {
        var declared := PushScopeEntries(py, registry);
        PerimeterExactly(py, scopeArmed, declared, repo.value, Refs(commands.value));
        var scope := ScopeVerdict(py, scopeArmed, declared, repo.value, Refs(commands.value));
        if !scope.OutOfScope? { return; }
      }
    }
    flow.headers := flow.headers - CREDENTIAL_NAMES;
    flow.response := Some(403);
  }

  /**
   A github.com request through both hooks. With a host token at hand, it is forwarded if and only if it
   is not a judged push or it is one that may be pushed; the host credential is on the request if and
   only if it is forwarded, and then it is the only credential there; nothing else in the headers moves.
   Without a token it is answered 503 and never carries a host credential.
   */
  method HandleGitRequest(flow: Flow, py: Py, token: Option<string>, boundArmed: bool, scopeArmed: bool,
                          registry: Registry)
    requires flow.host == GIT_HOST && flow.response.None?
    modifies flow
    ensures token.None? ==> flow.response == Some(503) && flow.headers == old(flow.headers)
    ensures token.Some? ==>
      (flow.response.None? <==>
       !Judged(flow, boundArmed) || MayPush(py, scopeArmed, registry, ReceivePackRepo(flow.path).value, flow.body))
    ensures token.Some? ==>
      && (flow.response.None? <==> "authorization" in flow.headers)
      && (flow.response.None? ==> flow.headers["authorization"] == HostBasic(token.value))
      && "proxy-authorization" !in flow.headers
      && flow.headers - CREDENTIAL_NAMES == old(flow.headers) - CREDENTIAL_NAMES
  {
    RequestHeaders(flow, py, token, false, None);
    Request(flow, py, boundArmed, scopeArmed, registry);
  }

  /**
   What a forwarded push's body looks like on the wire: nothing at all, or a unique chain of packets
   before the flush-pkt, every one of them carrying a well-formed branch update of this push.
   */
  lemma ForwardedBody(py: Py, scopeArmed: bool, registry: Registry, repo: string, body: seq<byte>)
    requires MayPush(py, scopeArmed, registry, repo, Some(body)) && body != []
    ensures exists packets: seq<Packet>, rest ::
      && Decomposes(body, packets, rest)
      && (forall i :: 0 <= i < |packets| ==>
            && ParseRefCommand(packets[i].payload).Some?
            && WellFormed(ParseRefCommand(packets[i].payload).value)
            && BranchUpdate(ParseRefCommand(packets[i].payload).value))
  {
    var packets, rest := ReadHasDecomposition(body, ParseRefCommand);
    forall i | 0 <= i < |packets|
      ensures ParseRefCommand(packets[i].payload).Some?
              && WellFormed(ParseRefCommand(packets[i].payload).value)
              && BranchUpdate(ParseRefCommand(packets[i].payload).value)
    {
      assert ParseRefCommand(packets[i].payload) == Some(Commands(Some(body)).value[i]);
      ParsedIsWellFormed(packets[i].payload);
    }
  }

  // ---------------------------------------------------------------- the two normal forms of a repository

  function LowerChar(c: char): char
  {
    if 'A' <= c <= 'Z' then c - 'A' + 'a' else c
  }

  function AsciiLower(s: string): (r: string)
    ensures |r| == |s|
  {
    seq(|s|, i requires 0 <= i < |s| => LowerChar(s[i]))
  }

  /**
   A registry declaration and a URL that spell the same `<owner>/<dir>` are meant to normalise to the
   same name. The declaration drops a `.git` suffix after lower-casing, the URL before it, so they meet
   exactly when the URL's suffix is not a differently-cased spelling of `.git`.
   */
  lemma NormalFormsMeet(owner: string, dir: string)
    requires owner != ""
    ensures DropGit(AsciiLower(owner + "/" + dir)) == AsciiLower(owner + "/" + DropGit(dir)) <==>
      (EndsWith(AsciiLower(dir), GIT) ==> EndsWith(dir, GIT))
  {
    var whole := owner + "/" + dir;
    var low := AsciiLower(whole);
    assert EndsWith(low, GIT) <==> EndsWith(AsciiLower(dir), GIT) by { SuffixOfDir(owner, dir); }
    if EndsWith(dir, GIT) {
      assert dir == DropGit(dir) + GIT;
      assert whole == (owner + "/" + DropGit(dir)) + GIT;
      assert AsciiLower(dir)[|dir| - 4..] == GIT;
      assert DropGit(low) == AsciiLower(owner + "/" + DropGit(dir));
    }
  }

  /** `o/r.GIT` as a declaration drops its suffix and as a URL keeps it. */
  lemma UpperCaseSuffixDoesNotMeet()
    ensures DropGit(AsciiLower("o" + "/" + "r.GIT")) != AsciiLower("o" + "/" + DropGit("r.GIT"))
  {
    var dir := "r.GIT";
    assert dir[1..] == ".GIT" && AsciiLower(dir)[1..] == ".git";
    NormalFormsMeet("o", dir);
  }

  lemma SuffixOfDir(owner: string, dir: string)
    requires owner != ""
    ensures EndsWith(AsciiLower(owner + "/" + dir), GIT) <==> EndsWith(AsciiLower(dir), GIT)
  {
    var low := AsciiLower(owner + "/" + dir);
    assert low[|owner|] == '/' && low[|owner| + 1..] == AsciiLower(dir);
    assert |dir| < 4 && 4 <= |low| ==> low[|low| - 4..][3 - |dir|] == '/';
    if |dir| >= 4 { assert low[|low| - 4..] == AsciiLower(dir)[|dir| - 4..]; }
  }
}
