/**
 The push judge of the GitHub addon: a static bound over every ref command of a push, a declared
 perimeter read from a host registry, and the two hooks that attach the host credential and strip it
 again from a refused push.
 */
module PushJudge {
  import opened Prelude
  import opened Utf8
  import opened PktLine

  /** The two Unicode-aware methods of Python's `str` the judge leans on. Nothing is assumed of them. */
  datatype Py = Py(lower: string -> string, isSpace: char -> bool, decode64: string -> Option<string>)

  // ---------------------------------------------------------------- small string functions

  predicate StartsWith(s: string, prefix: string)
  {
    prefix <= s
  }

  predicate EndsWith(s: string, suffix: string)
  {
    |suffix| <= |s| && s[|s| - |suffix|..] == suffix
  }

  /** `s.split(c, 1)[0]`. */
  function Until(s: string, c: char): (r: string)
    ensures |r| <= |s| && (forall i :: 0 <= i < |r| ==> r[i] == s[i] && r[i] != c) && (|r| < |s| ==> s[|r|] == c)
  {
    if s == [] || s[0] == c then [] else [s[0]] + Until(s[1..], c)
  }

  /** `s.split(c)`. */
  function Split(s: string, c: char): (parts: seq<string>)
    ensures parts != []
  {
    if s == [] then [[]]
    else
      var rest := Split(s[1..], c);
      if s[0] == c then [[]] + rest else [[s[0]] + rest[0]] + rest[1..]
  }

  function Strip(py: Py, s: string): string
  {
    if s == [] then s
    else if py.isSpace(s[0]) then Strip(py, s[1..])
    else if py.isSpace(s[|s| - 1]) then Strip(py, s[..|s| - 1])
    else s
  }

  ghost predicate AllSpace(py: Py, s: string)
  {
    forall i :: 0 <= i < |s| ==> py.isSpace(s[i])
  }

  /** What stripping takes off is blank, and what it leaves has no blank at either end. */
  lemma {:induction false} StripExactly(py: Py, s: string) returns (left: string, right: string)
    ensures s == left + Strip(py, s) + right && AllSpace(py, left) && AllSpace(py, right)
    ensures NoBlankEnds(py, Strip(py, s))
  {
    left, right := "", "";
    if s != [] && py.isSpace(s[0]) {
      var rest := s[1..];
      var l, r := StripExactly(py, rest);
      left, right := [s[0]] + l, r;
      assert s == [s[0]] + rest;
      Regroup([s[0]], l, Strip(py, rest), r);
    } else if s != [] && py.isSpace(s[|s| - 1]) {
      var rest, last := s[..|s| - 1], [s[|s| - 1]];
      var l, r := StripExactly(py, rest);
      left, right := l, r + last;
      assert s == rest + last;
      assert l + Strip(py, rest) + r + last == l + Strip(py, rest) + (r + last);
    } else {
      assert s == "" + s + "";
    }
  }

  ghost predicate NoBlankEnds(py: Py, s: string)
  {
    s != "" ==> !py.isSpace(s[0]) && !py.isSpace(s[|s| - 1])
  }

  lemma Regroup(a: string, b: string, c: string, d: string)
    ensures a + (b + c + d) == (a + b) + c + d
  {
  }

  /** Text without blanks at its ends is left alone. */
  lemma StripKeeps(py: Py, s: string)
    requires NoBlankEnds(py, s)
    ensures Strip(py, s) == s
  {
  }

  const GIT: string := ".git"

  function DropGit(name: string): string
  {
    if EndsWith(name, GIT) then name[..|name| - |GIT|] else name
  }

  // ---------------------------------------------------------------- which requests are pushes

  const RECEIVE_PACK: string := "/git-receive-pack"

  /** `<owner>/<repo>` when this path is a push; None lets the request through unjudged. */
  function ReceivePackRepo(path: string): Option<string>
  {
    var route := Until(path, '?');
    if !EndsWith(route, RECEIVE_PACK) then None
    else
      var parts := Split(route[..|route| - |RECEIVE_PACK|], '/');
      if |parts| != 3 || parts[0] != "" || parts[1] == "" || parts[2] == "" then None
      else if DropGit(parts[2]) == "" then None
      else Some(parts[1] + "/" + DropGit(parts[2]))
  }

  /** The shape of a smart-HTTP push path: one owner, one directory, an optional query. */
  ghost predicate IsPushPath(path: string, owner: string, dir: string, query: string)
  {
    && path == "/" + owner + "/" + dir + RECEIVE_PACK + query
    && owner != "" && '/' !in owner && '?' !in owner
    && DropGit(dir) != "" && '/' !in dir && '?' !in dir
    && (query != "" ==> query[0] == '?')
  }

  lemma {:induction false} UntilStops(s: string, query: string, c: char)
    requires c !in s && (query != "" ==> query[0] == c)
    ensures Until(s + query, c) == s
  {
    if s != [] {
      assert (s + query)[1..] == s[1..] + query;
      UntilStops(s[1..], query, c);
    } else {
      assert s + query == query;
    }
  }

  lemma UntilSplits(s: string, c: char) returns (query: string)
    ensures s == Until(s, c) + query && c !in Until(s, c) && (query != "" ==> query[0] == c)
  {
    query := s[|Until(s, c)|..];
  }

  lemma {:induction false} SplitOnce(s: string, c: char, rest: string)
    requires c !in s
    ensures Split(s + [c] + rest, c) == [s] + Split(rest, c)
  {
    var whole := s + [c] + rest;
    if s == [] {
      assert whole[1..] == rest;
    } else {
      assert whole[1..] == s[1..] + [c] + rest;
      SplitOnce(s[1..], c, rest);
      assert [s[0]] + s[1..] == s;
    }
  }

  lemma {:induction false} SplitNever(s: string, c: char)
    requires c !in s
    ensures Split(s, c) == [s]
  {
    if s != [] {
      SplitNever(s[1..], c);
      assert [s[0]] + s[1..] == s;
    }
  }

  /** Joining the parts with the separator gives the string back, and no part holds it. */
  function Join(parts: seq<string>, c: char): string
    requires parts != []
  {
    if |parts| == 1 then parts[0] else parts[0] + [c] + Join(parts[1..], c)
  }

  lemma {:induction false} SplitJoins(s: string, c: char)
    ensures Join(Split(s, c), c) == s
    ensures forall i :: 0 <= i < |Split(s, c)| ==> c !in Split(s, c)[i]
    ensures forall d, i :: d !in s && 0 <= i < |Split(s, c)| ==> d !in Split(s, c)[i]
  {
    if s != [] {
      var rest := Split(s[1..], c);
      SplitJoins(s[1..], c);
      assert s == [s[0]] + s[1..];
      if s[0] == c {
        assert ([[]] + rest)[1..] == rest;
      } else {
        var parts := [[s[0]] + rest[0]] + rest[1..];
        assert parts[1..] == rest[1..];
        if |rest| > 1 { assert Join(parts, c) == [s[0]] + Join(rest, c); }
      }
    }
  }

  lemma JoinThree(parts: seq<string>, c: char)
    requires |parts| == 3
    ensures Join(parts, c) == parts[0] + [c] + parts[1] + [c] + parts[2]
  {
    var two, one := parts[1..], parts[2..];
    assert two[1..] == one && Join(one, c) == parts[2] && Join(two, c) == parts[1] + [c] + parts[2];
    assert parts[0] + [c] + (parts[1] + [c] + parts[2]) == parts[0] + [c] + parts[1] + [c] + parts[2];
  }

  /** A path is judged as a push of `repo` if and only if it has the push shape for it. */
  lemma PushPathsExactly(path: string, repo: string)
    ensures ReceivePackRepo(path) == Some(repo) <==>
      exists owner, dir, query :: IsPushPath(path, owner, dir, query) && repo == owner + "/" + DropGit(dir)
  {
    if owner, dir, query :| IsPushPath(path, owner, dir, query) && repo == owner + "/" + DropGit(dir) {
      PushPathIsRead(path, owner, dir, query);
    }
    if ReceivePackRepo(path) == Some(repo) {
      var owner, dir, query := ReadPathHasShape(path);
    }
  }

  lemma ReadPathHasShape(path: string) returns (owner: string, dir: string, query: string)
    requires ReceivePackRepo(path).Some?
    ensures IsPushPath(path, owner, dir, query) && ReceivePackRepo(path) == Some(owner + "/" + DropGit(dir))
  {
    var route := Until(path, '?');
    query := UntilSplits(path, '?');
    var prefix := route[..|route| - |RECEIVE_PACK|];
    var parts := Split(prefix, '/');
    assert route == prefix + RECEIVE_PACK;
    assert '?' !in prefix;
    SplitJoins(prefix, '/');
    JoinThree(parts, '/');
    owner, dir := parts[1], parts[2];
    assert "" + ['/'] + owner + ['/'] + dir == "/" + owner + "/" + dir;
  }

  lemma PushPathIsRead(path: string, owner: string, dir: string, query: string)
    requires IsPushPath(path, owner, dir, query)
    ensures ReceivePackRepo(path) == Some(owner + "/" + DropGit(dir))
  {
    var prefix := "/" + owner + "/" + dir;
    UntilStops(prefix + RECEIVE_PACK, query, '?');
    assert (prefix + RECEIVE_PACK)[..|prefix|] == prefix;
    SplitPath(owner, dir);
  }

  /** As git asks for it: the suffix of the directory is dropped, and what follows a question mark. */
  lemma PushPathReads(owner: string, name: string, query: string, path: string)
    requires path == "/" + owner + "/" + (name + ".git") + "/git-receive-pack" + query
    requires owner != "" && name != "" && (query == "" || query[0] == '?')
    requires forall c :: c in owner || c in name ==> c != '/' && c != '?'
    ensures ReceivePackRepo(path) == Some(owner + "/" + name)
  {
    var dir := name + ".git";
    assert dir[|name|..] == ".git" && dir[..|name|] == name;
    assert forall c :: c in dir ==> c in name || c in ".git";
    assert IsPushPath(path, owner, dir, query);
    PushPathIsRead(path, owner, dir, query);
  }

  lemma SplitPath(owner: string, dir: string)
    requires '/' !in owner && '/' !in dir
    ensures Split("/" + owner + "/" + dir, '/') == ["", owner, dir]
  {
    assert "/" + owner + "/" + dir == "" + ['/'] + (owner + ['/'] + dir);
    SplitOnce("", '/', owner + ['/'] + dir);
    SplitOnce(owner, '/', dir);
    SplitNever(dir, '/');
  }

  // ---------------------------------------------------------------- the static bound

  datatype Reason = RepoForeign | RefDelete | RefExotic | RefProtected | PushOpaque | ScopeRepo | ScopeRef

  datatype Verdict = Allow | Deny(reason: Reason, subject: string)

  const ALLOWED_OWNER: string := "senara-solutions"
  const REF_PREFIX: string := "refs/heads/"
  const PROTECTED: set<string> := {"refs/heads/main", "refs/heads/master"}

  /** `new.strip("0") == ""`: the protocol's way of saying "delete", at any width. */
  predicate AllZero(id: string)
  {
    forall i :: 0 <= i < |id| ==> id[i] == '0'
  }

  function CommandVerdict(c: Command): Verdict
  {
    if AllZero(c.newId) then Deny(RefDelete, c.ref)
    else if !StartsWith(c.ref, REF_PREFIX) || c.ref == REF_PREFIX then Deny(RefExotic, c.ref)
    else if c.ref in PROTECTED then Deny(RefProtected, c.ref)
    else Allow
  }

  function FirstViolation(commands: seq<Command>): Verdict
  {
    if commands == [] then Allow
    else if CommandVerdict(commands[0]).Deny? then CommandVerdict(commands[0])
    else FirstViolation(commands[1..])
  }

  function PushVerdict(py: Py, repo: string, commands: seq<Command>): Verdict
  {
    if py.lower(Until(repo, '/')) != ALLOWED_OWNER then Deny(RepoForeign, repo) else FirstViolation(commands)
  }

  /** A branch update that neither deletes nor touches an integration branch. */
  predicate BranchUpdate(c: Command)
  {
    && (exists i :: 0 <= i < |c.newId| && c.newId[i] != '0')
    && |REF_PREFIX| < |c.ref| && c.ref[..|REF_PREFIX|] == REF_PREFIX
    && c.ref != "refs/heads/main" && c.ref != "refs/heads/master"
  }

  ghost predicate AllUpdates(commands: seq<Command>)
  {
    forall i :: 0 <= i < |commands| ==> BranchUpdate(commands[i])
  }

  ghost predicate StaticBound(py: Py, repo: string, commands: seq<Command>)
  {
    py.lower(Until(repo, '/')) == ALLOWED_OWNER && AllUpdates(commands)
  }

  /**
   Every command is examined. A push is allowed exactly when its owner matches and every command is a
   plain branch update; otherwise the first offending command names the refusal.
   */
  lemma {:induction false} StaticBoundExactly(py: Py, repo: string, commands: seq<Command>)
    ensures PushVerdict(py, repo, commands).Allow? <==> StaticBound(py, repo, commands)
    ensures FirstViolation(commands).Deny? ==>
      exists i :: 0 <= i < |commands| && FirstViolation(commands) == CommandVerdict(commands[i])
        && AllUpdates(commands[..i])
  {
    if commands != [] {
      StaticBoundExactly(py, repo, commands[1..]);
      assert CommandVerdict(commands[0]).Allow? <==> BranchUpdate(commands[0]);
      assert forall i :: 1 <= i < |commands| ==> commands[i] == commands[1..][i - 1];
      if CommandVerdict(commands[0]).Allow? && FirstViolation(commands).Deny? {
        var i :| 0 <= i < |commands[1..]| && FirstViolation(commands[1..]) == CommandVerdict(commands[1..][i])
          && AllUpdates(commands[1..][..i]);
        assert FirstViolation(commands) == CommandVerdict(commands[i + 1]);
        assert commands[..i + 1] == [commands[0]] + commands[1..][..i];
      }
    }
  }

  /** What a command is refused for: a deletion whatever its ref, else a ref that is no branch, else a protected one. */
  ghost predicate Offends(c: Command, reason: Reason)
  {
    var deletes := !exists i :: 0 <= i < |c.newId| && c.newId[i] != '0';
    match reason
    case RefDelete => deletes
    case RefExotic => !deletes && !exists branch :: branch != "" && c.ref == "refs/heads/" + branch
    case RefProtected => !deletes && c.ref in {"refs/heads/main", "refs/heads/master"}
    case _ => false
  }

  /** The reason a refusal gives is the owner's or that of the first command that is no plain update. */
  lemma RefusedFor(py: Py, repo: string, commands: seq<Command>)
    ensures var verdict := PushVerdict(py, repo, commands);
      if py.lower(Until(repo, '/')) != "senara-solutions" then verdict == Deny(RepoForeign, repo)
      else verdict.Deny? ==> exists i ::
        && 0 <= i < |commands| && verdict.subject == commands[i].ref && Offends(commands[i], verdict.reason)
        && AllUpdates(commands[..i])
  {
    StaticBoundExactly(py, repo, commands);
    if FirstViolation(commands).Deny? {
      var i :| 0 <= i < |commands| && FirstViolation(commands) == CommandVerdict(commands[i])
        && AllUpdates(commands[..i]);
      OffenceOf(commands[i]);
    }
  }

  lemma OffenceOf(c: Command)
    ensures CommandVerdict(c).Deny? ==> CommandVerdict(c).subject == c.ref && Offends(c, CommandVerdict(c).reason)
  {
    forall branch | branch != "" && c.ref == "refs/heads/" + branch
      ensures StartsWith(c.ref, REF_PREFIX) && c.ref != REF_PREFIX
    {
      assert c.ref[..|REF_PREFIX|] == REF_PREFIX;
      assert |c.ref| > |REF_PREFIX|;
    }
  }

  // ---------------------------------------------------------------- the registry of declared perimeters

  /** One directory entry: something that is not a readable file, or a file's lines. */
  datatype Entry = Skipped | File(lines: seq<string>)

  /** An absent directory reads as an empty registry; any other scan failure is unreadable. */
  datatype Registry = Missing | Unreadable | Listing(entries: seq<Entry>)

  /** A live dispatch's declaration. The repository is normalised; the ref keeps its case. */
  datatype Couple = Couple(repo: string, ref: Option<string>)

  function RepoValue(py: Py, line: string): string
  {
    var stripped := Strip(py, line);
    if StartsWith(stripped, "repo=") then DropGit(py.lower(Strip(py, stripped[5..]))) else ""
  }

  function RefValue(py: Py, line: string): string
  {
    var stripped := Strip(py, line);
    if StartsWith(stripped, "ref=") then Strip(py, stripped[4..]) else ""
  }

  /** A repository is declared lower-cased and without its suffix, a ref as written; other lines declare nothing. */
  lemma LinesDeclare(py: Py, value: string, line: string)
    requires value != "" && !py.isSpace(value[0]) && !py.isSpace(value[|value| - 1])
    requires !py.isSpace('r')
    ensures RepoValue(py, "repo=" + value) == DropGit(py.lower(value)) && RefValue(py, "repo=" + value) == ""
    ensures RefValue(py, "ref=" + value) == value && RepoValue(py, "ref=" + value) == ""
    ensures !("repo=" <= Strip(py, line)) && !("ref=" <= Strip(py, line)) ==>
      RepoValue(py, line) == "" && RefValue(py, line) == ""
  {
    var a, b := "repo=" + value, "ref=" + value;
    StripKeeps(py, a);
    StripKeeps(py, b);
    StripKeeps(py, value);
    assert a[5..] == value && b[4..] == value && a[2] == 'p' && b[2] == 'f';
    assert a[..5] == "repo=" && b[..4] == "ref=";
    assert a[..4][2] == 'p' && b[..5][2] == 'f';
  }

  /** The last non-empty value among the lines: a later declaration overrides an earlier one. */
  function LastValue(values: seq<string>): string
  {
    if values == [] then "" else if values[|values| - 1] != "" then values[|values| - 1]
      else LastValue(values[..|values| - 1])
  }

  function Values(py: Py, lines: seq<string>, value: (Py, string) -> string): seq<string>
  {
    seq(|lines|, i requires 0 <= i < |lines| => value(py, lines[i]))
  }

  function FileCouples(py: Py, lines: seq<string>): seq<Couple>
  {
    var repo := LastValue(Values(py, lines, RepoValue));
    var ref := LastValue(Values(py, lines, RefValue));
    if repo == "" then [] else [Couple(repo, if ref == "" then None else Some(ref))]
  }

  function Couples(py: Py, entries: seq<Entry>): seq<Couple>
  {
    if entries == [] then []
    else Couples(py, entries[..|entries| - 1]) + EntryCouples(py, entries[|entries| - 1])
  }

  function EntryCouples(py: Py, e: Entry): seq<Couple>
  {
    if e.Skipped? then [] else FileCouples(py, e.lines)
  }

  function Declared(py: Py, registry: Registry): Option<seq<Couple>>
  {
    match registry
    case Missing => Some([])
    case Unreadable => None
    case Listing(entries) => Some(Couples(py, entries))
  }

  lemma ValuesPush(py: Py, lines: seq<string>, i: nat, value: (Py, string) -> string)
    requires i < |lines|
    ensures LastValue(Values(py, lines[..i + 1], value))
         == if value(py, lines[i]) != "" then value(py, lines[i]) else LastValue(Values(py, lines[..i], value))
  {
    assert Values(py, lines[..i + 1], value)[..i] == Values(py, lines[..i], value);
  }

  /** The inner loop: both keys of one file in one pass, later lines overriding earlier ones. */
  method ReadEntry(py: Py, lines: seq<string>) returns (couples: seq<Couple>)
    ensures couples == FileCouples(py, lines)
  {
    var repo, ref := "", "";
    for i := 0 to |lines|
      invariant repo == LastValue(Values(py, lines[..i], RepoValue))
      invariant ref == LastValue(Values(py, lines[..i], RefValue))
    {
      ValuesPush(py, lines, i, RepoValue);
      ValuesPush(py, lines, i, RefValue);
      var stripped := Strip(py, lines[i]);
      if StartsWith(stripped, "repo=") {
        var value := py.lower(Strip(py, stripped[5..]));
        if EndsWith(value, GIT) { value := value[..|value| - |GIT|]; }
        if value != "" { repo := value; }
        assert !StartsWith(stripped, "ref=") by { assert stripped[2] == 'p'; }
      } else if StartsWith(stripped, "ref=") {
        var value := Strip(py, stripped[4..]);
        if value != "" { ref := value; }
      }
    }
    assert lines[..|lines|] == lines;
    couples := if repo == "" then [] else [Couple(repo, if ref == "" then None else Some(ref))];
  }

  method PushScopeEntries(py: Py, registry: Registry) returns (r: Option<seq<Couple>>)
    ensures r == Declared(py, registry)
  {
    if registry.Missing? { return Some([]); }
    if registry.Unreadable? { return None; }
    var entries, couples := registry.entries, [];
    for i := 0 to |entries|
      invariant couples == Couples(py, entries[..i])
    {
      assert entries[..i + 1][..i] == entries[..i];
      if entries[i].File? {
        var more := ReadEntry(py, entries[i].lines);
        couples := couples + more;
      }
    }
    assert entries[..|entries|] == entries;
    r := Some(couples);
  }

  // ---------------------------------------------------------------- the perimeter verdict

  datatype Scope = InScope | ScopeAbsent | ScopeUnreadable | ScopeRefAbsent | OutOfScope(verdict: Verdict)

  function Naming(couples: seq<Couple>, name: string): seq<Option<string>>
  {
    if couples == [] then []
    else (if couples[0].repo == name then [couples[0].ref] else []) + Naming(couples[1..], name)
  }

  function FirstUndeclared(py: Py, refs: seq<string>, allowed: set<Option<string>>): Scope
  {
    if refs == [] then InScope
    else if Some(Strip(py, refs[0])) !in allowed then OutOfScope(Deny(ScopeRef, refs[0]))
    else FirstUndeclared(py, refs[1..], allowed)
  }

  function ScopeVerdict(py: Py, armed: bool, declared: Option<seq<Couple>>, repo: string, refs: seq<string>): Scope
  {
    if !armed then InScope
    else if declared.None? then ScopeUnreadable
    else if declared.value == [] then ScopeAbsent
    else
      var live := Naming(declared.value, py.lower(Strip(py, repo)));
      if live == [] then OutOfScope(Deny(ScopeRepo, repo))
      else if refs == [] then InScope
      else if None in live then ScopeRefAbsent
      else FirstUndeclared(py, refs, set r | r in live)
  }

  /**
   The perimeter, said once for all: it is not armed, could not be read or declares nothing; or some
   entry names the repository and either the push carries no command, or an entry naming the repository
   declares no branch, or each ref is declared by an entry naming this same repository.
   */
  ghost predicate InPerimeter(py: Py, armed: bool, declared: Option<seq<Couple>>, repo: string, refs: seq<string>)
  {
    !armed || declared.None? || declared.value == [] ||
    (var name := py.lower(Strip(py, repo));
     && (exists c :: c in declared.value && c.repo == name)
     && (refs == [] || Couple(name, None) in declared.value
         || forall i :: 0 <= i < |refs| ==> Couple(name, Some(Strip(py, refs[i]))) in declared.value))
  }

  lemma {:induction false} NamingExactly(couples: seq<Couple>, name: string, ref: Option<string>)
    ensures ref in Naming(couples, name) <==> Couple(name, ref) in couples
    ensures Naming(couples, name) != [] <==> exists c :: c in couples && c.repo == name
  {
    if couples != [] {
      NamingExactly(couples[1..], name, ref);
      assert couples == [couples[0]] + couples[1..];
      if couples[0].repo == name { assert couples[0] in couples; }
      if c :| c in couples && c.repo == name { assert c == couples[0] || c in couples[1..]; }
    }
  }

  lemma {:induction false} FirstUndeclaredExactly(py: Py, refs: seq<string>, allowed: set<Option<string>>)
    ensures FirstUndeclared(py, refs, allowed).InScope?
      <==> forall i :: 0 <= i < |refs| ==> Some(Strip(py, refs[i])) in allowed
    ensures FirstUndeclared(py, refs, allowed).InScope? || FirstUndeclared(py, refs, allowed).OutOfScope?
    ensures FirstUndeclared(py, refs, allowed).OutOfScope? ==>
      exists i :: IsFirstUndeclared(py, refs, allowed, i)
        && FirstUndeclared(py, refs, allowed) == OutOfScope(Deny(ScopeRef, refs[i]))
  {
    if refs != [] {
      FirstUndeclaredExactly(py, refs[1..], allowed);
      assert forall i :: 1 <= i < |refs| ==> refs[i] == refs[1..][i - 1];
      if Some(Strip(py, refs[0])) !in allowed {
        assert IsFirstUndeclared(py, refs, allowed, 0);
      } else if FirstUndeclared(py, refs[1..], allowed).OutOfScope? {
        var rest := refs[1..];
        var i :| IsFirstUndeclared(py, rest, allowed, i)
          && FirstUndeclared(py, rest, allowed) == OutOfScope(Deny(ScopeRef, rest[i]));
        assert IsFirstUndeclared(py, refs, allowed, i + 1);
      }
    }
  }

  ghost predicate IsFirstUndeclared(py: Py, refs: seq<string>, allowed: set<Option<string>>, i: int)
  {
    0 <= i < |refs| && Some(Strip(py, refs[i])) !in allowed && forall k :: 0 <= k < i ==>
      Some(Strip(py, refs[k])) in allowed
  }

  /** What a refusal names: the repository when no entry does, else the first ref no entry of it declares. */
  lemma RefusalNames(py: Py, declared: seq<Couple>, repo: string, refs: seq<string>)
    requires ScopeVerdict(py, true, Some(declared), repo, refs).OutOfScope?
    ensures var name := py.lower(Strip(py, repo)); var verdict := ScopeVerdict(py, true, Some(declared), repo,
      refs).verdict;
      if !exists c :: c in declared && c.repo == name then verdict == Deny(ScopeRepo, repo)
      else
        exists i ::
          && 0 <= i < |refs| && verdict == Deny(ScopeRef, refs[i])
          && Couple(name, Some(Strip(py, refs[i]))) !in declared
          && forall k :: 0 <= k < i ==> Couple(name, Some(Strip(py, refs[k]))) in declared
  {
    var name := py.lower(Strip(py, repo));
    var live := Naming(declared, name);
    var allowed := set r | r in live;
    forall ref: Option<string> ensures ref in live
      <==> Couple(name, ref) in declared { NamingExactly(declared, name, ref); }
    NamingExactly(declared, name, None);
    FirstUndeclaredExactly(py, refs, allowed);
    if live != [] {
      var i :| IsFirstUndeclared(py, refs, allowed, i)
        && FirstUndeclared(py, refs, allowed) == OutOfScope(Deny(ScopeRef, refs[i]));
    }
  }

  /** When the judge lets a push through without having judged it in full, and why it says so. */
  lemma DegradesExactly(py: Py, armed: bool, declared: Option<seq<Couple>>, repo: string, refs: seq<string>)
    ensures var scope := ScopeVerdict(py, armed, declared, repo, refs);
      && (scope == ScopeUnreadable <==> armed && declared.None?)
      && (scope == ScopeAbsent <==> armed && declared == Some([]))
      && (scope == ScopeRefAbsent <==>
            armed && declared.Some? && refs != [] && Couple(py.lower(Strip(py, repo)), None) in declared.value)
  {
    if declared.Some? {
      var name := py.lower(Strip(py, repo));
      NamingExactly(declared.value, name, None);
      FirstUndeclaredExactly(py, refs, set r | r in Naming(declared.value, name));
    }
  }

  /** The verdict refuses exactly the pushes outside the perimeter. */
  lemma PerimeterExactly(py: Py, armed: bool, declared: Option<seq<Couple>>, repo: string, refs: seq<string>)
    ensures ScopeVerdict(py, armed, declared, repo, refs).OutOfScope? <==> !InPerimeter(py, armed, declared, repo, refs)
  {
    if armed && declared.Some? && declared.value != [] {
      var name := py.lower(Strip(py, repo));
      var live := Naming(declared.value, name);
      forall ref: Option<string> ensures ref in live <==> Couple(name, ref) in declared.value {
        NamingExactly(declared.value, name, ref);
      }
      NamingExactly(declared.value, name, None);
      FirstUndeclaredExactly(py, refs, set r | r in live);
    }
  }

  // ---------------------------------------------------------------- monotonicity of the registry

  /** Over non-empty registries, more declarations never refuse what fewer accepted. */
  lemma MoreEntriesAcceptMore(py: Py, armed: bool, few: seq<Couple>, many: seq<Couple>, repo: string, refs: seq<string>)
    requires few != [] && forall c :: c in few ==> c in many
    requires !ScopeVerdict(py, armed, Some(few), repo, refs).OutOfScope?
    ensures !ScopeVerdict(py, armed, Some(many), repo, refs).OutOfScope?
  {
    PerimeterExactly(py, armed, Some(few), repo, refs);
    PerimeterExactly(py, armed, Some(many), repo, refs);
    assert few[0] in many;
  }

  /** Taking declarations away turns a refusal into an acceptance exactly when none is left. */
  lemma FewerEntriesAcceptOnlyWhenEmpty(py: Py, armed: bool, few: seq<Couple>, many: seq<Couple>, repo: string,
                                        refs: seq<string>)
    requires forall c :: c in few ==> c in many
    requires ScopeVerdict(py, armed, Some(many), repo, refs).OutOfScope?
    ensures !ScopeVerdict(py, armed, Some(few), repo, refs).OutOfScope? <==> few == []
  {
    if few != [] && !ScopeVerdict(py, armed, Some(few), repo, refs).OutOfScope? {
      MoreEntriesAcceptMore(py, armed, few, many, repo, refs);
    }
  }

  lemma {:induction false} CouplesConcat(py: Py, a: seq<Entry>, b: seq<Entry>)
    ensures Couples(py, a + b) == Couples(py, a) + Couples(py, b)
    decreases |b|
  {
    if b == [] {
      assert a + b == a;
    } else {
      var init := b[..|b| - 1];
      assert (a + b)[..|a + b| - 1] == a + init;
      CouplesConcat(py, a, init);
      assert Couples(py, a) + Couples(py, init) + EntryCouples(py, b[|b| - 1])
          == Couples(py, a) + (Couples(py, init) + EntryCouples(py, b[|b| - 1]));
    }
  }

  /** Adding or purging one registry file adds or removes that file's couple, of which there is at most one. */
  lemma FileAddsAtMostOne(py: Py, before: seq<Entry>, e: Entry, after: seq<Entry>)
    ensures Couples(py, before + after) == Couples(py, before) + Couples(py, after)
    ensures Couples(py, before + [e] + after) == Couples(py, before) + EntryCouples(py, e) + Couples(py, after)
    ensures |EntryCouples(py, e)| <= 1
  {
    CouplesConcat(py, before, after);
    CouplesConcat(py, before + [e], after);
    CouplesConcat(py, before, [e]);
    assert [e][..0] == [] && Couples(py, [e]) == [] + EntryCouples(py, e);
  }

  /**
   The union is by entry, not by dimension: whatever else is declared, a ref that only entries of other
   repositories declare cannot be pushed to this one, as long as every entry naming this one declares a ref.
   */
  lemma NoBorrowedRef(py: Py, declared: seq<Couple>, repo: string, refs: seq<string>, i: nat)
    requires declared != [] && i < |refs|
    requires var name := py.lower(Strip(py, repo));
      Couple(name, None) !in declared && forall c :: c in declared && c.ref == Some(Strip(py, refs[i])) ==>
        c.repo != name
    ensures ScopeVerdict(py, true, Some(declared), repo, refs).OutOfScope?
  {
    PerimeterExactly(py, true, Some(declared), repo, refs);
  }

  /** With two dispatches in flight, neither may push the other's branch. */
  lemma NoBorrowedBranch(py: Py, a: string, x: string, b: string, y: string, repo: string, ref: string)
    requires a != b && x != y && py.lower(Strip(py, repo)) == a && Strip(py, ref) == y
    ensures ScopeVerdict(py, true, Some([Couple(a, Some(x)), Couple(b, Some(y))]), repo, [ref])
      == OutOfScope(Deny(ScopeRef, ref))
  {
    var declared := [Couple(a, Some(x)), Couple(b, Some(y))];
    NoBorrowedRef(py, declared, repo, [ref], 0);
    assert Couple(a, Some(x)) in declared;
    RefusalNames(py, declared, repo, [ref]);
  }
}
