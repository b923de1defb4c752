/** `apply_migrations`: the `.sql` files of a directory run in name
    order, each at most once, with the versions already applied recorded
    in `schema_migrations`. What a script does to the schema is outside
    the model; whether it runs without a database error is a parameter. */
module Migrations {
  import opened Common
  import Text
  import Sorting

  /** A directory entry: its name and whether it is a regular file. */
  datatype DirEntry = DirEntry(name: string, isFile: bool)

  datatype MigrationError = MissingDir | Failed(name: string)

  /** The versions recorded afterwards, the scripts that ran (in order),
      and the error raised, if any. Scripts that ran before a failure stay
      committed. */
  datatype Outcome = Outcome(applied: set<string>, ran: seq<string>, error: Option<MigrationError>)

  /** The migration scripts of a directory, in name order: regular files
      whose suffix is exactly `.sql`. */
  function ScriptNames(entries: seq<DirEntry>): (r: seq<string>)
    ensures Sorting.LexSorted(r)
    ensures forall i :: 0 <= i < |r| ==> Text.Suffix(r[i]) == ".sql"
    ensures forall i :: 0 <= i < |entries| && entries[i].isFile && Text.Suffix(entries[i].name) == ".sql"
                        ==> entries[i].name in r
  {
    var files := SqlFiles(entries);
    var r := Sorting.SortStrings(files);
    forall i | 0 <= i < |r| ensures Text.Suffix(r[i]) == ".sql" {
      assert r[i] in multiset(files);
    }
    forall x | x in files ensures x in r {
      assert x in multiset(r);
    }
    r
  }

  function SqlFiles(entries: seq<DirEntry>): (r: seq<string>)
    ensures forall i :: 0 <= i < |r| ==> Text.Suffix(r[i]) == ".sql"
    ensures forall i :: 0 <= i < |entries| && entries[i].isFile && Text.Suffix(entries[i].name) == ".sql"
                        ==> entries[i].name in r
  {
    if |entries| == 0 then []
    else
      var rest := SqlFiles(entries[1..]);
      assert forall i :: 1 <= i < |entries| ==> entries[i] == entries[1..][i - 1];
      if entries[0].isFile && Text.Suffix(entries[0].name) == ".sql" then [entries[0].name] + rest
      else rest
  }

  /** The scripts whose version (file stem) was not yet applied, in order. */
  function Pending(names: seq<string>, applied: set<string>): (r: seq<string>)
    ensures forall i :: 0 <= i < |r| ==> r[i] in names && Text.Stem(r[i]) !in applied
    ensures forall i :: 0 <= i < |names| && Text.Stem(names[i]) !in applied ==> names[i] in r
  {
    if |names| == 0 then []
    else
      var rest := Pending(names[1..], applied);
      assert forall i :: 1 <= i < |names| ==> names[i] == names[1..][i - 1];
      if Text.Stem(names[0]) !in applied then [names[0]] + rest else rest
  }

  /** Runs scripts in order until one fails: the longest prefix of
      `scripts` that executes, and the script that stopped it. */
  function RunScripts(scripts: seq<string>, executes: string -> bool): (r: (seq<string>, Option<string>))
    ensures |r.0| <= |scripts| && r.0 == scripts[..|r.0|]
    ensures forall i :: 0 <= i < |r.0| ==> executes(r.0[i])
    ensures r.1.None? <==> r.0 == scripts
    ensures r.1.Some? ==> |r.0| < |scripts| && r.1.value == scripts[|r.0|] && !executes(scripts[|r.0|])
  {
    if |scripts| == 0 then ([], None)
    else if !executes(scripts[0]) then ([], Some(scripts[0]))
    else
      var p := RunScripts(scripts[1..], executes);
      ([scripts[0]] + p.0, p.1)
  }

  function Versions(names: seq<string>): set<string> {
    set i | 0 <= i < |names| :: Text.Stem(names[i])
  }

  lemma InVersions(names: seq<string>, x: string)
    requires x in names
    ensures Text.Stem(x) in Versions(names)
  {
    var i :| 0 <= i < |names| && names[i] == x;
  }

  /** `apply_migrations` against a store whose `schema_migrations` holds
      `applied`. `dir` is `None` when the directory does not exist;
      `executes` says whether a script runs without a database error. */
  function ApplyMigrations(applied: set<string>, dir: Option<seq<DirEntry>>, executes: string -> bool)
    : (r: Outcome)
    ensures dir.None? ==> r == Outcome(applied, [], Some(MissingDir))
    ensures r.applied == applied + Versions(r.ran)
    ensures forall i :: 0 <= i < |r.ran| ==> executes(r.ran[i]) && Text.Stem(r.ran[i]) !in applied
    ensures r.error.None? ==> dir.Some? && forall i :: 0 <= i < |dir.value| && dir.value[i].isFile
                                                && Text.Suffix(dir.value[i].name) == ".sql"
                                                ==> Text.Stem(dir.value[i].name) in r.applied
    ensures r.error.Some? && r.error.value.Failed? ==> !executes(r.error.value.name)
  {
    match dir
    case None => Outcome(applied, [], Some(MissingDir))
    case Some(entries) => ApplyScripts(applied, entries, executes)
  }

  /** The pending scripts of an existing directory, run in order until
      one fails. */
  function ApplyScripts(applied: set<string>, entries: seq<DirEntry>, executes: string -> bool)
    : (r: Outcome)
    ensures r.applied == applied + Versions(r.ran)
    ensures forall i :: 0 <= i < |r.ran| ==> executes(r.ran[i]) && Text.Stem(r.ran[i]) !in applied
    ensures r.error.None? ==> forall i :: 0 <= i < |entries| && entries[i].isFile
                                         && Text.Suffix(entries[i].name) == ".sql"
                                         ==> Text.Stem(entries[i].name) in r.applied
    ensures r.error.Some? ==> r.error.value.Failed? && !executes(r.error.value.name)
  {
    var pending := Pending(ScriptNames(entries), applied);
    var p := RunScripts(pending, executes);
    PrefixStaysPending(pending, applied, p.0);
    if p.1.None? then
      SuccessCoversAll(entries, applied, p.0);
      Outcome(applied + Versions(p.0), p.0, None)
    else
      Outcome(applied + Versions(p.0), p.0, Some(Failed(p.1.value)))
  }

  lemma PrefixStaysPending(pending: seq<string>, applied: set<string>, ran: seq<string>)
    requires forall i :: 0 <= i < |pending| ==> Text.Stem(pending[i]) !in applied
    requires |ran| <= |pending| && ran == pending[..|ran|]
    ensures forall i :: 0 <= i < |ran| ==> Text.Stem(ran[i]) !in applied
  {
    assert forall i :: 0 <= i < |ran| ==> ran[i] == pending[i];
  }

  lemma SuccessCoversAll(entries: seq<DirEntry>, applied: set<string>, ran: seq<string>)
    requires ran == Pending(ScriptNames(entries), applied)
    ensures forall i :: 0 <= i < |entries| && entries[i].isFile && Text.Suffix(entries[i].name) == ".sql"
                        ==> Text.Stem(entries[i].name) in applied + Versions(ran)
  {
    var names := ScriptNames(entries);
    forall i | 0 <= i < |entries| && entries[i].isFile && Text.Suffix(entries[i].name) == ".sql"
      ensures Text.Stem(entries[i].name) in applied + Versions(ran)
    {
      var x := entries[i].name;
      if Text.Stem(x) !in applied {
        var k :| 0 <= k < |names| && names[k] == x;
        assert x in ran;
        InVersions(ran, x);
      }
    }
  }

  /** The scripts run in name order. */
  lemma RanInNameOrder(applied: set<string>, entries: seq<DirEntry>, executes: string -> bool)
    ensures Sorting.LexSorted(ApplyMigrations(applied, Some(entries), executes).ran)
  {
    var names := ScriptNames(entries);
    PendingSorted(names, applied);
    var pending := Pending(names, applied);
    var p := RunScripts(pending, executes);
    assert ApplyMigrations(applied, Some(entries), executes).ran == p.0;
    SortedPrefix(pending, |p.0|);
  }

  lemma SortedPrefix(s: seq<string>, n: nat)
    requires Sorting.LexSorted(s) && n <= |s|
    ensures Sorting.LexSorted(s[..n])
  {
    assert forall i :: 0 <= i < n ==> s[..n][i] == s[i];
  }

  lemma SortedTail(s: seq<string>)
    requires Sorting.LexSorted(s) && |s| > 0
    ensures Sorting.LexSorted(s[1..])
    ensures forall x :: x in s[1..] ==> Text.LexLe(s[0], x)
  {
    assert forall i :: 0 <= i < |s[1..]| ==> s[1..][i] == s[i + 1];
  }

  lemma SortedCons(h: string, rest: seq<string>)
    requires Sorting.LexSorted(rest)
    requires forall x :: x in rest ==> Text.LexLe(h, x)
    ensures Sorting.LexSorted([h] + rest)
  {
    var r := [h] + rest;
    forall i, j | 0 <= i < j < |r| ensures Text.LexLe(r[i], r[j]) {
      assert r[j] == rest[j - 1];
      if i > 0 {
        assert r[i] == rest[i - 1];
      }
    }
  }

  lemma {:induction false} PendingSorted(names: seq<string>, applied: set<string>)
    requires Sorting.LexSorted(names)
    ensures Sorting.LexSorted(Pending(names, applied))
  {
    if |names| > 0 {
      SortedTail(names);
      PendingSorted(names[1..], applied);
      var rest := Pending(names[1..], applied);
      if Text.Stem(names[0]) !in applied {
        assert forall x :: x in rest ==> x in names[1..];
        SortedCons(names[0], rest);
      }
    }
  }

  /** A second run right after a successful one applies nothing and
      changes nothing. */
  lemma SecondRunIsNoOp(applied: set<string>, entries: seq<DirEntry>, executes: string -> bool, again: string -> bool)
    requires ApplyMigrations(applied, Some(entries), executes).error.None?
    ensures var first := ApplyMigrations(applied, Some(entries), executes);
            ApplyMigrations(first.applied, Some(entries), again) == Outcome(first.applied, [], None)
  {
    var first := ApplyMigrations(applied, Some(entries), executes);
    var names := ScriptNames(entries);
    assert forall i :: 0 <= i < |names| ==> Text.Stem(names[i]) in first.applied by {
      forall i | 0 <= i < |names| ensures Text.Stem(names[i]) in first.applied {
        MemberOfSqlFile(entries, names[i]);
      }
    }
    NothingPending(names, first.applied);
    NothingToRun(first.applied, entries, again);
  }

  lemma NothingToRun(applied: set<string>, entries: seq<DirEntry>, executes: string -> bool)
    requires Pending(ScriptNames(entries), applied) == []
    ensures ApplyMigrations(applied, Some(entries), executes) == Outcome(applied, [], None)
  {
    assert Versions([]) == {};
  }

  lemma {:induction false} NothingPending(names: seq<string>, applied: set<string>)
    requires forall i :: 0 <= i < |names| ==> Text.Stem(names[i]) in applied
    ensures Pending(names, applied) == []
  {
    if |names| > 0 {
      assert forall i :: 0 <= i < |names[1..]| ==> names[1..][i] == names[i + 1];
      NothingPending(names[1..], applied);
    }
  }

  /** Every script name comes from a `.sql` file of the directory. */
  lemma MemberOfSqlFile(entries: seq<DirEntry>, name: string)
    requires name in ScriptNames(entries)
    ensures exists i :: 0 <= i < |entries| && entries[i].isFile && entries[i].name == name
                        && Text.Suffix(entries[i].name) == ".sql"
  {
    assert name in multiset(ScriptNames(entries));
    assert name in SqlFiles(entries);
    SqlFilesFrom(entries, name);
  }

  lemma {:induction false} SqlFilesFrom(entries: seq<DirEntry>, name: string)
    requires name in SqlFiles(entries)
    ensures exists i :: 0 <= i < |entries| && entries[i].isFile && entries[i].name == name
                        && Text.Suffix(entries[i].name) == ".sql"
  {
    if !(entries[0].isFile && Text.Suffix(entries[0].name) == ".sql" && entries[0].name == name) {
      SqlFilesFrom(entries[1..], name);
      var i :| 0 <= i < |entries[1..]| && entries[1..][i].isFile && entries[1..][i].name == name
               && Text.Suffix(entries[1..][i].name) == ".sql";
      assert entries[i + 1] == entries[1..][i];
    }
  }

  /** A failure leaves the scripts before it applied and records nothing
      for the failed script or anything after it. */
  lemma FailureStopsTheRun(applied: set<string>, entries: seq<DirEntry>, executes: string -> bool)
    requires ApplyMigrations(applied, Some(entries), executes).error.Some?
    ensures var r := ApplyMigrations(applied, Some(entries), executes);
            var pending := Pending(ScriptNames(entries), applied);
            |r.ran| < |pending| && r.ran == pending[..|r.ran|] && r.error == Some(Failed(pending[|r.ran|]))
  {
  }
}
