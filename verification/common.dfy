/** Failure-compatible wrappers and the row-at-a-time parsing combinator
    shared by the registry, log and label parsers. */
module Common {

  /** A value that may be absent (Python's `None`). */
  datatype Option<+T> = None | Some(value: T) {
    function GetOr(default: T): T {
      match this
      case Some(v) => v
      case None => default
    }
  }

  /** The outcome of an operation that may raise: `Err` carries the exception. */
  datatype Result<+T, +E> = Ok(value: T) | Err(error: E) {
    predicate IsFailure() {
      Err?
    }

    function PropagateFailure<U>(): Result<U, E>
      requires Err?
    {
      Err(error)
    }

    function Extract(): T
      requires Ok?
    {
      value
    }

    function MapError<E2>(f: E -> E2): Result<T, E2> {
      match this
      case Ok(v) => Ok(v)
      case Err(e) => Err(f(e))
    }
  }

  /** A CSV file as `csv.DictReader` presents it: the header row (absent for
      an empty file) and one map per data row from raw header name to cell
      text. A header missing from a row's map reads as `None`. */
  datatype CsvTable = CsvTable(header: Option<seq<string>>, rows: seq<map<string, string>>)

  /** `row.get(key)` */
  function Get(row: map<string, string>, key: string): Option<string> {
    if key in row then Some(row[key]) else None
  }

  /** Applies `f` to every row in order and stops at the first failure,
      as a Python loop that appends each parsed row does. */
  function ParseAll<R, T, E>(rows: seq<R>, f: R -> Result<T, E>): (r: Result<seq<T>, E>)
    ensures r.Ok? ==> |r.value| == |rows| && forall i :: 0 <= i < |rows| ==> f(rows[i]) == Ok(r.value[i])
    ensures r.Err? <==> exists k :: 0 <= k < |rows| && f(rows[k]).Err?
    ensures r.Err? ==> exists k :: 0 <= k < |rows| && f(rows[k]) == Err(r.error)
                                   && forall j :: 0 <= j < k ==> f(rows[j]).Ok?
  {
    if |rows| == 0 then Ok([])
    else
      match f(rows[0])
      case Err(e) => Err(e)
      case Ok(t) =>
        match ParseAll(rows[1..], f)
        case Err(e) =>
          ghost var k :| 0 <= k < |rows[1..]| && f(rows[1..][k]) == Err(e)
                         && forall j :: 0 <= j < k ==> f(rows[1..][j]).Ok?;
          assert f(rows[k + 1]) == Err(e);
          Err(e)
        case Ok(ts) =>
          assert forall i :: 1 <= i < |rows| ==> rows[i] == rows[1..][i - 1];
          Ok([t] + ts)
  }

  /** When every row parses, the parse is the sequence of results. */
  lemma ParseAllOk<R, T, E>(rows: seq<R>, f: R -> Result<T, E>, parsed: seq<T>)
    requires |parsed| == |rows|
    requires forall i :: 0 <= i < |rows| ==> f(rows[i]) == Ok(parsed[i])
    ensures ParseAll(rows, f) == Ok(parsed)
  {
    var r := ParseAll(rows, f);
    assert forall i :: 0 <= i < |rows| ==> f(rows[i]) == Ok(r.value[i]);
    assert forall i :: 0 <= i < |rows| ==> r.value[i] == parsed[i];
    assert r.value == parsed;
  }

  /** The first index whose element satisfies `p`. */
  function FirstWhere<T>(xs: seq<T>, p: T -> bool): (r: Option<nat>)
    ensures r.Some? ==> r.value < |xs| && p(xs[r.value]) && forall j :: 0 <= j < r.value ==> !p(xs[j])
    ensures r.None? <==> forall j :: 0 <= j < |xs| ==> !p(xs[j])
  {
    if |xs| == 0 then None
    else if p(xs[0]) then Some(0)
    else
      var r := FirstWhere(xs[1..], p);
      if r.Some? then
        assert forall j :: 1 <= j <= r.value ==> xs[j] == xs[1..][j - 1];
        Some(r.value + 1)
      else
        assert forall j :: 1 <= j < |xs| ==> xs[j] == xs[1..][j - 1];
        None
  }

  /** The search sees only whether each element satisfies `p`. */
  lemma {:induction false} FirstWhereSame<T>(xs: seq<T>, ys: seq<T>, p: T -> bool)
    requires |ys| == |xs|
    requires forall j :: 0 <= j < |xs| ==> p(ys[j]) == p(xs[j])
    ensures FirstWhere(ys, p) == FirstWhere(xs, p)
  {
    if |xs| > 0 {
      assert forall j :: 0 <= j < |xs| - 1 ==> p(ys[1..][j]) == p(xs[1..][j]);
      FirstWhereSame(xs[1..], ys[1..], p);
    }
  }

  /** A member of a sequence's multiset sits at some index. */
  lemma MemberAt<T>(x: T, xs: seq<T>) returns (j: nat)
    requires x in multiset(xs)
    ensures j < |xs| && xs[j] == x
  {
    assert x in xs;
    j :| j < |xs| && xs[j] == x;
  }

  /** Dropping the head of a prefix is taking a prefix of the tail. */
  lemma PrefixTail<T>(xs: seq<T>, k: nat)
    requires k < |xs|
    ensures xs[..k + 1][1..] == xs[1..][..k]
    ensures xs[..k + 1][0] == xs[0]
  {
  }
}
