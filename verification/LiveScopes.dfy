/**
 The push judge purges its registry of declared perimeters before it reads it. Here the two meet: which
 declarations count after any history of purges, writes and removals.
 */
module LiveScopes {
  import opened Prelude
  import Purge
  import opened PushJudge

  /** What reading each file of the directory gives, in the order the directory lists them. */
  function ReadAll(names: seq<string>, content: string -> Entry): seq<Entry>
  {
    seq(|names|, i requires 0 <= i < |names| => content(names[i]))
  }

  ghost predicate Lists(names: seq<string>, d: Purge.Dir)
  {
    forall n :: n in names <==> n in d.files
  }

  /** Some file in the directory declares this couple. */
  ghost predicate Live(py: Py, d: Purge.Dir, content: string -> Entry, c: Couple)
  {
    exists n :: n in d.files && c in EntryCouples(py, content(n))
  }

  lemma {:induction false} CouplesHas(py: Py, entries: seq<Entry>, c: Couple)
    ensures c in Couples(py, entries) <==> exists i :: 0 <= i < |entries| && c in EntryCouples(py, entries[i])
  {
    if entries != [] {
      var init := entries[..|entries| - 1];
      CouplesHas(py, init, c);
      assert forall i :: 0 <= i < |init| ==> init[i] == entries[i];
    }
  }

  lemma DeclaredIsLive(py: Py, d: Purge.Dir, names: seq<string>, content: string -> Entry, c: Couple)
    requires Lists(names, d)
    ensures c in Couples(py, ReadAll(names, content)) <==> Live(py, d, content, c)
  {
    var entries := ReadAll(names, content);
    CouplesHas(py, entries, c);
    if n :| n in d.files && c in EntryCouples(py, content(n)) {
      var i :| 0 <= i < |names| && names[i] == n;
      assert c in EntryCouples(py, entries[i]);
    }
    if i :| 0 <= i < |entries| && c in EntryCouples(py, entries[i]) { assert names[i] in d.files; }
  }

  /** The history lets a file stand that declares this couple. */
  ghost predicate Declares(py: Py, d: Purge.Dir, events: seq<Purge.Event>, content: string -> Entry, c: Couple)
  {
    exists n, mtime :: Purge.Lasts(d, events, n, mtime) && c in EntryCouples(py, content(n))
  }

  /** Which declarations are live after any history of purges, writes and removals. */
  lemma LiveExactly(py: Py, d: Purge.Dir, events: seq<Purge.Event>, content: string -> Entry, c: Couple)
    ensures Live(py, Purge.Replay(d, events), content, c) <==> Declares(py, d, events, content, c)
  {
    var now := Purge.Replay(d, events);
    if n :| n in now.files && c in EntryCouples(py, content(n)) { Purge.ThereExactly(d, events, n, now.files[n]); }
    if n, mtime :| Purge.Lasts(d, events, n, mtime) && c in EntryCouples(py, content(n)) {
      Purge.ThereExactly(d, events, n, mtime);
    }
  }

  /** The perimeter in terms of the history alone. */
  ghost predicate InDeclaredPerimeter(py: Py, d: Purge.Dir, events: seq<Purge.Event>, content: string -> Entry,
                                      repo: string, refs: seq<string>)
  {
    InPerimeterOf(py, (c: Couple) => Declares(py, d, events, content, c), repo, refs)
  }

  /** The perimeter of whatever is declared. */
  ghost predicate InPerimeterOf(py: Py, declared: Couple -> bool, repo: string, refs: seq<string>)
  {
    var name := py.lower(Strip(py, repo));
    || (forall c :: !declared(c))
    || ((exists c :: declared(c) && c.repo == name)
        && (refs == [] || declared(Couple(name, None))
            || forall i :: 0 <= i < |refs| ==> declared(Couple(name, Some(Strip(py, refs[i]))))))
  }

  lemma SamePerimeter(py: Py, couples: seq<Couple>, declared: Couple -> bool, repo: string, refs: seq<string>)
    requires forall c :: c in couples <==> declared(c)
    ensures InPerimeter(py, true, Some(couples), repo, refs) <==> InPerimeterOf(py, declared, repo, refs)
  {
    assert couples != [] ==> couples[0] in couples;
  }

  /**
   After any history of purges, writes and removals of the directory, ending with the purge the judge makes
   itself, a push is in scope if and only if it lies in the perimeter of the declarations that history let
   stand.
   */
  lemma JudgedAfterHistory(py: Py, d: Purge.Dir, events: seq<Purge.Event>, names: seq<string>,
                           content: string -> Entry, repo: string, refs: seq<string>)
    requires Lists(names, Purge.Replay(d, events))
    ensures !ScopeVerdict(py, true, Declared(py, Listing(ReadAll(names, content))), repo, refs).OutOfScope?
      <==> InDeclaredPerimeter(py, d, events, content, repo, refs)
  {
    var now, couples := Purge.Replay(d, events), Couples(py, ReadAll(names, content));
    PerimeterExactly(py, true, Some(couples), repo, refs);
    var declared := (c: Couple) => Declares(py, d, events, content, c);
    forall c ensures c in couples <==> declared(c) {
      DeclaredIsLive(py, now, names, content, c);
      LiveExactly(py, d, events, content, c);
    }
    SamePerimeter(py, couples, declared, repo, refs);
  }

  /**
   A declaration in a file nobody rewrites or removes counts as long as no purge that went through found
   the file too old: then the file is there, and its couple with it.
   */
  lemma UntouchedDeclarationCounts(py: Py, d: Purge.Dir, events: seq<Purge.Event>, content: string -> Entry,
                                   name: string, c: Couple)
    requires name in d.files && c in EntryCouples(py, content(name))
    requires Purge.Stands(d, events, 0, name, d.files[name])
    ensures Declares(py, d, events, content, c)
  {
    assert Purge.Lasts(d, events, name, d.files[name]);
  }

  /** The only file that names the repository. */
  ghost predicate OnlyFile(py: Py, content: string -> Entry, mine: string, name: string)
  {
    forall n, c :: c in EntryCouples(py, content(n)) && c.repo == name ==> n == mine
  }

  /**
   The asymmetry of the TTL: when a purge that went through has dropped the one file naming a repository,
   nobody has written it again, and some other declaration still stands, every push to that repository is
   refused, instead of falling back to the static bound.
   */
  lemma PurgedWhileOthersLive(py: Py, d: Purge.Dir, events: seq<Purge.Event>, names: seq<string>,
                              content: string -> Entry, repo: string, refs: seq<string>, mine: string, k: nat,
                              other: Couple)
    requires Lists(names, Purge.Replay(d, events)) && OnlyFile(py, content, mine, py.lower(Strip(py, repo)))
    requires mine in d.files && k < |events| && Purge.Reaps(d, events, k, mine, d.files[mine])
    requires forall j :: 0 <= j < |events| ==> !Purge.Touches(events[j], mine)
    requires Declares(py, d, events, content, other)
    ensures ScopeVerdict(py, true, Declared(py, Listing(ReadAll(names, content))), repo, refs).OutOfScope?
  {
    var name, declared := py.lower(Strip(py, repo)), (c: Couple) => Declares(py, d, events, content, c);
    forall mtime ensures !Purge.Lasts(d, events, mine, mtime) { ReapedIsGone(d, events, mine, k, mtime); }
    forall c | declared(c) ensures c.repo != name { DeclaredElsewhere(py, d, events, content, mine, name, c); }
    NobodyDeclares(py, declared, repo, refs, other);
    JudgedAfterHistory(py, d, events, names, content, repo, refs);
  }

  lemma ReapedIsGone(d: Purge.Dir, events: seq<Purge.Event>, mine: string, k: nat, mtime: real)
    requires mine in d.files && k < |events| && Purge.Reaps(d, events, k, mine, d.files[mine])
    requires forall j :: 0 <= j < |events| ==> !Purge.Touches(events[j], mine)
    ensures !Purge.Lasts(d, events, mine, mtime)
  {
    forall i: nat | i < |events| ensures !Purge.WrittenAt(d, events, i, mine, mtime) {
      assert !Purge.Touches(events[i], mine);
    }
  }

  lemma DeclaredElsewhere(py: Py, d: Purge.Dir, events: seq<Purge.Event>, content: string -> Entry, mine: string,
                          name: string, c: Couple)
    requires Declares(py, d, events, content, c) && OnlyFile(py, content, mine, name)
    requires forall mtime :: !Purge.Lasts(d, events, mine, mtime)
    ensures c.repo != name
  {
    var n, mtime :| Purge.Lasts(d, events, n, mtime) && c in EntryCouples(py, content(n));
  }

  lemma NobodyDeclares(py: Py, declared: Couple -> bool, repo: string, refs: seq<string>, other: Couple)
    requires declared(other) && forall c :: declared(c) ==> c.repo != py.lower(Strip(py, repo))
    ensures !InPerimeterOf(py, declared, repo, refs)
  {
  }
}
