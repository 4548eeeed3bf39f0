/**
 * The pure helpers shared by the bot's features: chunking a list into fixed-size groups
 * (used to lay out inline-keyboard buttons two per row) and the two wrappers that turn
 * the database worker's reply into rows or a single value.
 */
module Helper {
  import opened Wrappers
  import opened Arithmetic

  // ---------------------------------------------------------------------------------
  // group_elements
  // ---------------------------------------------------------------------------------

  /** Concatenation of a list of groups. */
  function Flatten<T>(groups: seq<seq<T>>): seq<T>
  {
    if groups == [] then [] else groups[0] + Flatten(groups[1..])
  }

  lemma {:induction false} FlattenAppend<T>(a: seq<seq<T>>, b: seq<seq<T>>)
    ensures Flatten(a + b) == Flatten(a) + Flatten(b)
    decreases |a|
  {
    if a == [] {
      assert a + b == b;
    } else {
      assert (a + b)[1..] == a[1..] + b;
      FlattenAppend(a[1..], b);
    }
  }

  lemma DivStep(len: nat, n: nat)
    requires n > 0 && len >= n
    ensures (len - n) / n == len / n - 1
    ensures (len - n) % n == len % n
  {
    assert len == (len / n) * n + len % n;
    assert len - n == (len / n - 1) * n + len % n;
    DivModUnique(len - n, n, len / n - 1, len % n);
  }

  /**
   * The part built by `zip(*[iter(xs)] * n)`: consecutive tuples of exactly `n`
   * elements, stopping as soon as fewer than `n` elements are left.
   */
  function FullGroups<T>(xs: seq<T>, n: nat): (r: seq<seq<T>>)
    requires n > 0
    ensures |r| == |xs| / n
    ensures forall i :: 0 <= i < |r| ==> |r[i]| == n
    ensures Flatten(r) == xs[..|xs| - |xs| % n]
    decreases |xs|
  {
    if |xs| < n then
      assert |xs| - |xs| % n == 0;
      []
    else
      var rest := FullGroups(xs[n..], n);
      DivStep(|xs|, n);
      assert xs[..|xs| - |xs| % n] == xs[..n] + xs[n..][..|xs[n..]| - |xs[n..]| % n];
      [xs[..n]] + rest
  }

  /**
   * `group_elements(flat_list, amount_per_group)`: the full groups, then, when the
   * length is not a multiple of `n`, one last group holding the `len % n` trailing
   * elements (`flat_list[-remaining:]`).
   */
  function GroupElements<T>(xs: seq<T>, n: nat): (r: seq<seq<T>>)
    requires n > 0
    ensures Flatten(r) == xs
    ensures forall i :: 0 <= i < |r| - 1 ==> |r[i]| == n
    ensures |r| == (|xs| + n - 1) / n
    ensures |r| > 0 ==> (|r[|r| - 1]| < n <==> |xs| % n != 0)
    ensures |xs| % n != 0 ==> |r| > 0 && |r[|r| - 1]| == |xs| % n
    ensures |xs| % n == 0 ==> forall i :: 0 <= i < |r| ==> |r[i]| == n
  {
    var grouped := FullGroups(xs, n);
    var remaining := |xs| % n;
    CeilDiv(|xs|, n);
    if remaining != 0 then
      var tail := xs[|xs| - remaining..];
      FlattenAppend(grouped, [tail]);
      assert Flatten([tail]) == tail + Flatten([tail][1..]);
      assert xs == xs[..|xs| - remaining] + tail;
      grouped + [tail]
    else
      grouped
  }

  /** The number of groups, full or not: the length divided by `n`, rounded up. */
  lemma CeilDiv(len: nat, n: nat)
    requires n > 0
    ensures (len + n - 1) / n == len / n + (if len % n != 0 then 1 else 0)
  {
    assert len == (len / n) * n + len % n;
    if len % n != 0 {
      assert len + n - 1 == (len / n + 1) * n + (len % n - 1);
      DivModUnique(len + n - 1, n, len / n + 1, len % n - 1);
    } else {
      assert len + n - 1 == (len / n) * n + (n - 1);
      DivModUnique(len + n - 1, n, len / n, n - 1);
    }
  }

  // ---------------------------------------------------------------------------------
  // database_query / database_query_single
  // ---------------------------------------------------------------------------------

  /** An SQLite value as the Python driver hands it back; `Null` is Python's `None`. */
  datatype Value = Null | Integer(i: int) | Text(s: string)

  type Row = seq<Value>

  /**
   * What the database worker puts on the results queue for one query: the fetched rows,
   * or `None` when SQLite raised an operational or programming error.
   */
  type Reply = Option<seq<Row>>

  /** The `RuntimeError("Error in transaction!")` raised on a failed reply. */
  datatype DbError = TransactionError

  /** `database_query`: the rows of a successful reply, an error for a failed one. */
  function DatabaseQuery(reply: Reply): (r: Result<seq<Row>, DbError>)
    ensures r.Failure? <==> reply.None?
    ensures reply.Some? ==> r == Success(reply.value)
  {
    match reply
    case None => Failure(TransactionError)
    case Some(rows) => Success(rows)
  }

  /**
   * What `database_query_single` returns: one value (Python `None` is `Scalar(Null)`)
   * or a whole row when it has other than exactly one column.
   */
  datatype Single = Scalar(v: Value) | Tuple(row: Row)

  /** The Python `is None` test on a returned value. */
  predicate IsNone(s: Single) {
    s == Scalar(Null)
  }

  /**
   * `database_query_single`: no rows gives `None`; otherwise only the first row counts,
   * a one-column row collapsing to its sole element.
   */
  function DatabaseQuerySingle(reply: Reply): (r: Result<Single, DbError>)
    ensures r.Failure? <==> reply.None?
    ensures reply == Some([]) ==> r == Success(Scalar(Null))
    ensures reply.Some? && |reply.value| > 0 && |reply.value[0]| == 1 ==>
              r == Success(Scalar(reply.value[0][0]))
    ensures reply.Some? && |reply.value| > 0 && |reply.value[0]| != 1 ==>
              r == Success(Tuple(reply.value[0]))
  {
    match DatabaseQuery(reply)
    case Failure(e) => Failure(e)
    case Success(rows) =>
      if rows == [] then Success(Scalar(Null))
      else
        var row := rows[0];
        if |row| == 1 then Success(Scalar(row[0])) else Success(Tuple(row))
  }

  /** Rows after the first never influence the single value. */
  lemma OnlyFirstRowMatters(first: Row, rest: seq<Row>)
    ensures DatabaseQuerySingle(Some([first] + rest)) == DatabaseQuerySingle(Some([first]))
  {
  }

  /**
   * The caller's `is None` test cannot tell "no row" from "a row whose only column is
   * NULL": it holds exactly in those two cases.
   */
  lemma NoneMeansNoRowOrNull(rows: seq<Row>)
    ensures DatabaseQuerySingle(Some(rows)).Success?
    ensures IsNone(DatabaseQuerySingle(Some(rows)).value) <==>
              rows == [] || rows[0] == [Null]
  {
    if rows != [] && |rows[0]| == 1 && rows[0][0] == Null {
      assert rows[0] == [Null];
    }
  }
}
