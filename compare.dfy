/**
 * Comparison and filtering of binary values: lexicographic order over unsigned bytes,
 * coercion of text literals to their UTF-8 bytes, and the `>` and `IN` filters that
 * keep the labels of the rows whose binary value passes.
 */
module Compare {
  import opened Bytes
  import opened Results
  import opened Literals
  import Utf8

  /** `a` sorts strictly before `b`: byte by byte, and a proper prefix first. */
  predicate ByteLess(a: seq<byte>, b: seq<byte>) {
    if |a| == 0 then |b| > 0
    else |b| > 0 && (a[0] < b[0] || (a[0] == b[0] && ByteLess(a[1..], b[1..])))
  }

  /** The two ways `a` can sort before `b`, stated without recursion. */
  predicate LessAt(a: seq<byte>, b: seq<byte>) {
    || (|a| < |b| && a == b[..|a|])
    || exists k :: 0 <= k < |a| && k < |b| && a[..k] == b[..k] && a[k] < b[k]
  }

  /** The recursive order and its non-recursive statement agree. */
  lemma ByteLessIsLessAt(a: seq<byte>, b: seq<byte>)
    ensures ByteLess(a, b) <==> LessAt(a, b)
  {
    if ByteLess(a, b) {
      ByteLessToLessAt(a, b);
    }
    if LessAt(a, b) {
      LessAtToByteLess(a, b);
    }
  }

  lemma {:induction false} ByteLessToLessAt(a: seq<byte>, b: seq<byte>)
    requires ByteLess(a, b)
    ensures LessAt(a, b)
  {
    if |a| == 0 {
      assert a == b[..0];
    } else if a[0] == b[0] {
      ByteLessToLessAt(a[1..], b[1..]);
      if |a[1..]| < |b[1..]| && a[1..] == b[1..][..|a[1..]|] {
        assert a == [a[0]] + a[1..] && b[..|a|] == [b[0]] + b[1..][..|a[1..]|];
      } else {
        var k :| 0 <= k < |a[1..]| && k < |b[1..]| && a[1..][..k] == b[1..][..k] && a[1..][k] < b[1..][k];
        assert a[..k + 1] == [a[0]] + a[1..][..k];
        assert b[..k + 1] == [b[0]] + b[1..][..k];
        assert a[k + 1] < b[k + 1];
      }
    } else {
      assert a[..0] == b[..0];
    }
  }

  lemma {:induction false} LessAtToByteLess(a: seq<byte>, b: seq<byte>)
    requires LessAt(a, b)
    ensures ByteLess(a, b)
  {
    if |a| > 0 {
      if |a| < |b| && a == b[..|a|] {
        assert a[0] == b[0];
        assert a[1..] == b[1..][..|a[1..]|];
        LessAtToByteLess(a[1..], b[1..]);
      } else {
        var k :| 0 <= k < |a| && k < |b| && a[..k] == b[..k] && a[k] < b[k];
        if k > 0 {
          assert a[0] == a[..k][0] == b[..k][0] == b[0];
          assert a[1..][..k - 1] == b[1..][..k - 1];
          assert a[1..][k - 1] < b[1..][k - 1];
          LessAtToByteLess(a[1..], b[1..]);
        }
      }
    }
  }

  lemma {:induction false} ByteLessIrreflexive(a: seq<byte>)
    ensures !ByteLess(a, a)
  {
    if |a| > 0 {
      ByteLessIrreflexive(a[1..]);
    }
  }

  lemma {:induction false} ByteLessAsymmetric(a: seq<byte>, b: seq<byte>)
    ensures ByteLess(a, b) ==> !ByteLess(b, a)
  {
    if |a| > 0 && |b| > 0 {
      ByteLessAsymmetric(a[1..], b[1..]);
    }
  }

  lemma {:induction false} ByteLessTransitive(a: seq<byte>, b: seq<byte>, c: seq<byte>)
    ensures ByteLess(a, b) && ByteLess(b, c) ==> ByteLess(a, c)
  {
    if |a| > 0 && |b| > 0 && |c| > 0 {
      ByteLessTransitive(a[1..], b[1..], c[1..]);
    }
  }

  lemma {:induction false} ByteLessConnected(a: seq<byte>, b: seq<byte>)
    ensures ByteLess(a, b) || a == b || ByteLess(b, a)
  {
    if |a| > 0 && |b| > 0 {
      ByteLessConnected(a[1..], b[1..]);
      if a[0] == b[0] && a[1..] == b[1..] {
        assert a == [a[0]] + a[1..] && b == [b[0]] + b[1..];
      }
    }
  }

  /** Exactly one of `a < b`, `a == b`, `b < a` holds. */
  lemma ByteLessTrichotomy(a: seq<byte>, b: seq<byte>)
    ensures ByteLess(a, b) || a == b || ByteLess(b, a)
    ensures !(ByteLess(a, b) && a == b) && !(ByteLess(b, a) && a == b) && !(ByteLess(a, b) && ByteLess(b, a))
  {
    ByteLessConnected(a, b);
    ByteLessIrreflexive(a);
    ByteLessAsymmetric(a, b);
  }

  /** The bytes a scalar value stands for when compared with a binary column; text gives its UTF-8 bytes. */
  function Coerce(v: ScalarValue): (r: Option<seq<byte>>)
    ensures r.Some? <==> v.Binary? || v.Utf8Text?
    ensures v.Binary? ==> r == Some(v.bytes)
    ensures v.Utf8Text? ==> r.Some? && Utf8.Decode(r.value) == Some(v.text)
    ensures v.Utf8Text? ==> forall bs :: Utf8.Decode(bs) == Some(v.text) ==> bs == r.value
  {
    match v
    case Binary(bs) => Some(bs)
    case Utf8Text(s) => Utf8.DecodeEncode(s); Utf8.DecodeDetermines(s); Some(Utf8.Encode(s))
    case _ => None
  }

  /** One row of a binary column, with the label that a query returns for it. */
  datatype Row = Row(bin: seq<byte>, tag: int)

  function Labels(rows: seq<Row>): (r: seq<int>)
    ensures |r| == |rows| && forall i :: 0 <= i < |rows| ==> r[i] == rows[i].tag
  {
    if rows == [] then [] else [rows[0].tag] + Labels(rows[1..])
  }

  /** The row conditions of a filter: strictly greater than a probe, or equal to one of several. */
  datatype Condition = GreaterThan(probe: seq<byte>) | OneOf(probes: seq<seq<byte>>)

  predicate Passes(cond: Condition, b: seq<byte>) {
    match cond
    case GreaterThan(p) => ByteLess(p, b)
    case OneOf(ps) => b in ps
  }

  /** The labels of the rows whose binary value passes `cond`, in row order. */
  function Select(rows: seq<Row>, cond: Condition): (r: seq<int>)
    ensures |r| <= |rows|
  {
    if rows == [] then []
    else (if Passes(cond, rows[0].bin) then [rows[0].tag] else []) + Select(rows[1..], cond)
  }

  /** `xs` is obtained from `ys` by deleting elements. */
  predicate IsSubsequence(xs: seq<int>, ys: seq<int>)
    decreases |ys|
  {
    if xs == [] then true
    else if ys == [] then false
    else (xs[0] == ys[0] && IsSubsequence(xs[1..], ys[1..])) || IsSubsequence(xs, ys[1..])
  }

  /** A label is selected exactly when some row carrying it passes. */
  lemma {:induction false} SelectMembers(rows: seq<Row>, cond: Condition, x: int)
    ensures x in Select(rows, cond) <==> exists i :: 0 <= i < |rows| && Passes(cond, rows[i].bin) && rows[i].tag == x
  {
    if rows != [] {
      SelectMembers(rows[1..], cond, x);
      if x in Select(rows[1..], cond) {
        var i :| 0 <= i < |rows[1..]| && Passes(cond, rows[1..][i].bin) && rows[1..][i].tag == x;
        assert rows[i + 1] == rows[1..][i];
      }
      if exists i :: 0 <= i < |rows| && Passes(cond, rows[i].bin) && rows[i].tag == x {
        var i :| 0 <= i < |rows| && Passes(cond, rows[i].bin) && rows[i].tag == x;
        if i > 0 {
          assert rows[1..][i - 1] == rows[i];
        }
      }
    }
  }

  /** Selection keeps the row order and deletes only. */
  lemma {:induction false} SelectIsSubsequence(rows: seq<Row>, cond: Condition)
    ensures IsSubsequence(Select(rows, cond), Labels(rows))
  {
    if rows != [] {
      SelectIsSubsequence(rows[1..], cond);
      var rest := Select(rows[1..], cond);
      var labels := Labels(rows);
      assert labels[1..] == Labels(rows[1..]);
      if Passes(cond, rows[0].bin) {
        assert Select(rows, cond) == [rows[0].tag] + rest;
        assert ([rows[0].tag] + rest)[1..] == rest;
      } else {
        assert Select(rows, cond) == rest;
        SubsequenceOfTail(rest, labels);
      }
    }
  }

  lemma {:induction false} SubsequenceOfTail(xs: seq<int>, ys: seq<int>)
    requires |ys| > 0 && IsSubsequence(xs, ys[1..])
    ensures IsSubsequence(xs, ys)
  {
  }

  /** Selecting from two blocks of rows selects from each block in turn. */
  lemma {:induction false} SelectAppend(a: seq<Row>, b: seq<Row>, cond: Condition)
    ensures Select(a + b, cond) == Select(a, cond) + Select(b, cond)
  {
    if a == [] {
      assert a + b == b;
    } else {
      var ab := a + b;
      assert ab[0] == a[0];
      assert ab[1..] == a[1..] + b;
      SelectAppend(a[1..], b, cond);
      var head := if Passes(cond, a[0].bin) then [a[0].tag] else [];
      assert Select(ab, cond) == head + Select(a[1..] + b, cond);
      assert Select(a, cond) == head + Select(a[1..], cond);
      assert head + (Select(a[1..], cond) + Select(b, cond)) == (head + Select(a[1..], cond)) + Select(b, cond);
    }
  }

  /** Positions in strictly ascending order. */
  predicate Increasing(idx: seq<nat>) {
    forall k, l :: 0 <= k < l < |idx| ==> idx[k] < idx[l]
  }

  /** Row positions below `n`, each at most once, in row order. */
  predicate Ascending(idx: seq<nat>, n: nat) {
    (forall k :: 0 <= k < |idx| ==> idx[k] < n) && Increasing(idx)
  }

  /** The labels of the rows at the positions `idx`, in that order. */
  function Pick(rows: seq<Row>, idx: seq<nat>): seq<int>
    requires forall k :: 0 <= k < |idx| ==> idx[k] < |rows|
  {
    seq(|idx|, k requires 0 <= k < |idx| => rows[idx[k]].tag)
  }

  /** The positions of the rows that pass `cond`, in row order. */
  function PassingIndices(rows: seq<Row>, cond: Condition): (idx: seq<nat>)
    ensures Ascending(idx, |rows|)
    ensures forall i :: 0 <= i < |rows| ==> (i in idx <==> Passes(cond, rows[i].bin))
    decreases |rows|
  {
    if rows == [] then []
    else
      var n := |rows| - 1;
      var init := rows[..n];
      assert forall i :: 0 <= i < n ==> init[i] == rows[i];
      PassingIndices(init, cond) + (if Passes(cond, rows[n].bin) then [n] else [])
  }

  /** Selection is row by row: it picks, in order, the label of every passing row and of no other. */
  lemma {:induction false} SelectByIndices(rows: seq<Row>, cond: Condition)
    ensures Select(rows, cond) == Pick(rows, PassingIndices(rows, cond))
    decreases |rows|
  {
    if rows != [] {
      var n := |rows| - 1;
      var init, last := rows[..n], rows[n];
      var p := PassingIndices(init, cond);
      var extra := if Passes(cond, last.bin) then [n] else [];
      assert PassingIndices(rows, cond) == p + extra;
      assert rows == init + [last];
      SelectAppend(init, [last], cond);
      SelectByIndices(init, cond);
      SelectOne(last, cond);
      PickPrefix(rows, n, p);
      PickSnoc(rows, p, extra);
    }
  }

  lemma SelectOne(row: Row, cond: Condition)
    ensures Select([row], cond) == if Passes(cond, row.bin) then [row.tag] else []
  {
    assert [row][1..] == [];
  }

  lemma PickPrefix(rows: seq<Row>, n: nat, p: seq<nat>)
    requires n <= |rows| && forall k :: 0 <= k < |p| ==> p[k] < n
    ensures Pick(rows[..n], p) == Pick(rows, p)
  {
  }

  lemma PickSnoc(rows: seq<Row>, p: seq<nat>, extra: seq<nat>)
    requires forall k :: 0 <= k < |p| ==> p[k] < |rows|
    requires |extra| <= 1 && forall k :: 0 <= k < |extra| ==> extra[k] < |rows|
    ensures Pick(rows, p + extra) == Pick(rows, p) + Pick(rows, extra)
  {
  }

  lemma HeadIsLeast(a: seq<nat>, i: nat)
    requires Increasing(a) && i in a
    ensures a[0] <= i
  {
    var k :| 0 <= k < |a| && a[k] == i;
    if k > 0 {
      assert a[0] < a[k];
    }
  }

  lemma TailMembers(a: seq<nat>, i: nat)
    requires Increasing(a) && a != []
    ensures i in a[1..] <==> i in a && i != a[0]
  {
    if i in a[1..] {
      var k :| 0 <= k < |a[1..]| && a[1..][k] == i;
      assert a[0] < a[k + 1];
    }
    if i in a && i != a[0] {
      var k :| 0 <= k < |a| && a[k] == i;
      assert a[1..][k - 1] == i;
    }
  }

  /** Ascending positions are determined by the set of positions they hold. */
  lemma {:induction false} IncreasingUnique(a: seq<nat>, b: seq<nat>)
    requires Increasing(a) && Increasing(b)
    requires forall i :: i in a <==> i in b
    ensures a == b
    decreases |a|
  {
    if b != [] {
      assert b[0] in b && b[0] in a;
    }
    if a != [] {
      assert a[0] in a;
      assert b != [];
      HeadIsLeast(a, b[0]);
      HeadIsLeast(b, a[0]);
      forall i | true
        ensures i in a[1..] <==> i in b[1..]
      {
        TailMembers(a, i);
        TailMembers(b, i);
      }
      assert Increasing(a[1..]) && Increasing(b[1..]);
      IncreasingUnique(a[1..], b[1..]);
      assert a == [a[0]] + a[1..] && b == [b[0]] + b[1..];
    }
  }

  /** The bytes of every list element, when each of them is binary or text. */
  function CoerceAll(vs: seq<ScalarValue>): (r: Option<seq<seq<byte>>>)
    ensures r.Some? <==> forall j :: 0 <= j < |vs| ==> Coerce(vs[j]).Some?
    ensures r.Some? ==> |r.value| == |vs| && forall j :: 0 <= j < |vs| ==> Coerce(vs[j]) == Some(r.value[j])
  {
    if vs == [] then Some([])
    else
      match Coerce(vs[0])
      case None => None
      case Some(head) =>
        match CoerceAll(vs[1..])
        case None => None
        case Some(tail) => Some([head] + tail)
  }

  /** `b` is equal, after coercion, to some element of the list. */
  predicate InList(b: seq<byte>, vs: seq<ScalarValue>) {
    exists j :: 0 <= j < |vs| && Coerce(vs[j]) == Some(b)
  }

  /**
   * `WHERE bin > v`: the labels of the rows whose value sorts strictly after `v`'s bytes.
   * `None` when `v` is neither binary nor text, a kind the comparison does not define.
   */
  function FilterGreater(rows: seq<Row>, v: ScalarValue): (r: Option<seq<int>>)
    ensures r.Some? <==> Coerce(v).Some?
    ensures r.Some? ==> IsSubsequence(r.value, Labels(rows))
    ensures r.Some? ==> forall x :: x in r.value <==> exists i :: 0 <= i < |rows| && ByteLess(Coerce(v).value, rows[i].bin) && rows[i].tag == x
    ensures r.Some? ==> exists idx ::
      && Ascending(idx, |rows|)
      && (forall i :: 0 <= i < |rows| ==> (i in idx <==> ByteLess(Coerce(v).value, rows[i].bin)))
      && r.value == Pick(rows, idx)
  {
    match Coerce(v)
    case None => None
    case Some(p) =>
      var cond := GreaterThan(p);
      SelectIsSubsequence(rows, cond);
      SelectByIndices(rows, cond);
      var idx := PassingIndices(rows, cond);
      assert forall i :: 0 <= i < |rows| ==> (i in idx <==> ByteLess(p, rows[i].bin));
      forall x ensures x in Select(rows, cond) <==> exists i :: 0 <= i < |rows| && ByteLess(p, rows[i].bin) && rows[i].tag == x {
        SelectMembers(rows, cond, x);
      }
      Some(Select(rows, cond))
  }

  /**
   * `WHERE bin IN (vs)`: the labels of the rows whose value equals, after coercion,
   * some element of the list. `None` when an element is neither binary nor text.
   */
  function FilterIn(rows: seq<Row>, vs: seq<ScalarValue>): (r: Option<seq<int>>)
    ensures r.Some? <==> forall j :: 0 <= j < |vs| ==> Coerce(vs[j]).Some?
    ensures r.Some? ==> IsSubsequence(r.value, Labels(rows))
    ensures r.Some? ==> forall x :: x in r.value <==> exists i :: 0 <= i < |rows| && InList(rows[i].bin, vs) && rows[i].tag == x
    ensures r.Some? ==> exists idx ::
      && Ascending(idx, |rows|)
      && (forall i :: 0 <= i < |rows| ==> (i in idx <==> InList(rows[i].bin, vs)))
      && r.value == Pick(rows, idx)
  {
    match CoerceAll(vs)
    case None => None
    case Some(ps) =>
      var cond := OneOf(ps);
      SelectIsSubsequence(rows, cond);
      assert forall b :: b in ps <==> InList(b, vs);
      SelectByIndices(rows, cond);
      var idx := PassingIndices(rows, cond);
      assert forall i :: 0 <= i < |rows| ==> (i in idx <==> InList(rows[i].bin, vs));
      forall x ensures x in Select(rows, cond) <==> exists i :: 0 <= i < |rows| && InList(rows[i].bin, vs) && rows[i].tag == x {
        SelectMembers(rows, cond, x);
      }
      Some(Select(rows, cond))
  }
}
