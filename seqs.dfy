/** Sequence layout used by every codec: a pixel vector or a file body is a
    run of equal-length rows laid end to end. */
module Seqs {

  /** n copies of x (std::vector(n, x)). */
  function Fill<T>(x: T, n: nat): (s: seq<T>)
    ensures |s| == n
    ensures forall i :: 0 <= i < n ==> s[i] == x
  {
    seq(n, _ => x)
  }

  /** The rows of ss laid end to end. */
  function Concat<T>(ss: seq<seq<T>>): seq<T>
  {
    if ss == [] then [] else ss[0] + Concat(ss[1..])
  }

  /** Every row of ss has length n. */
  ghost predicate Uniform<T>(ss: seq<seq<T>>, n: nat)
  {
    forall k :: 0 <= k < |ss| ==> |ss[k]| == n
  }

  /** f applied to every element, order kept. */
  function Map<A, B>(f: A -> B, s: seq<A>): (r: seq<B>)
    ensures |r| == |s|
    ensures forall i :: 0 <= i < |s| ==> r[i] == f(s[i])
  {
    seq(|s|, i requires 0 <= i < |s| => f(s[i]))
  }

  /** The first count consecutive slices of length n of s. */
  function Chunks<T>(s: seq<T>, n: nat, count: nat): (r: seq<seq<T>>)
    requires count * n <= |s|
    ensures |r| == count && Uniform(r, n)
  {
    if count == 0 then []
    else
      assert count * n == n + (count - 1) * n;
      [s[..n]] + Chunks(s[n..], n, count - 1)
  }

  lemma {:induction false} ConcatLength<T>(ss: seq<seq<T>>, n: nat)
    requires Uniform(ss, n)
    ensures |Concat(ss)| == |ss| * n
  {
    if ss != [] {
      ConcatLength(ss[1..], n);
      assert |ss| * n == n + (|ss| - 1) * n;
    }
  }

  lemma {:induction false} ConcatAppend<T>(a: seq<seq<T>>, b: seq<seq<T>>)
    ensures Concat(a + b) == Concat(a) + Concat(b)
  {
    if a == [] {
      assert a + b == b;
    } else {
      assert (a + b)[1..] == a[1..] + b;
      ConcatAppend(a[1..], b);
    }
  }

  /** A prefix one longer is the shorter prefix and the next element. */
  lemma AppendNext<T>(s: seq<T>, i: nat)
    requires i < |s|
    ensures s[..i + 1] == s[..i] + [s[i]]
  {
  }

  /** a <= b scales to a*n <= b*n. */
  lemma MulMonotone(a: nat, b: nat, n: nat)
    requires a <= b
    ensures a * n <= b * n
  {
    assert b * n == a * n + (b - a) * n;
  }

  lemma MulSucc(a: nat, n: nat)
    ensures (a + 1) * n == a * n + n
  {
  }

  /** A layout splits around its row i. */
  lemma {:induction false} SplitAt<T>(ss: seq<seq<T>>, i: nat)
    requires i < |ss|
    ensures Concat(ss) == Concat(ss[..i]) + ss[i] + Concat(ss[i + 1..])
  {
    var before, mid, after := ss[..i], [ss[i]], ss[i + 1..];
    assert ss == (before + mid) + after;
    ConcatAppend(before + mid, after);
    ConcatAppend(before, mid);
    assert mid[1..] == [];
    assert Concat(mid) == ss[i];
  }

  /** Replacing row i of a uniform layout replaces exactly the slice
      [i*n, (i+1)*n) of the concatenation. */
  lemma ConcatUpdate<T>(ss: seq<seq<T>>, n: nat, i: nat, row: seq<T>)
    requires Uniform(ss, n) && i < |ss| && |row| == n
    ensures i * n + n <= |Concat(ss)|
    ensures Concat(ss[i := row]) == Concat(ss)[..i * n] + row + Concat(ss)[i * n + n..]
  {
    var updated := ss[i := row];
    SplitAt(ss, i);
    SplitAt(updated, i);
    assert updated[..i] == ss[..i];
    assert updated[i + 1..] == ss[i + 1..];
    var a, b := Concat(ss[..i]), Concat(ss[i + 1..]);
    assert Uniform(ss[..i], n);
    ConcatLength(ss[..i], n);
    assert |a| == i * n;
    assert Concat(ss)[..i * n] == a;
    assert Concat(ss)[i * n + n..] == b;
  }

  /** Row i of Chunks is the slice [i*n, (i+1)*n) of the source. */
  lemma {:induction false} ChunkAt<T>(s: seq<T>, n: nat, count: nat, i: nat)
    requires count * n <= |s| && i < count
    ensures i * n + n <= |s|
    ensures Chunks(s, n, count)[i] == s[i * n..i * n + n]
  {
    MulMonotone(i + 1, count, n);
    MulSucc(i, n);
    MulSucc(count - 1, n);
    if i > 0 {
      var j, rest := i - 1, s[n..];
      ChunkAt(rest, n, count - 1, j);
      MulSucc(j, n);
      var a := j * n;
      assert rest[a..a + n] == s[n + a..n + a + n];
    }
  }


  /** Laying the rows of s back end to end gives s. */
  lemma {:induction false} ConcatOfChunks<T>(s: seq<T>, n: nat, count: nat)
    requires count * n == |s|
    ensures Concat(Chunks(s, n, count)) == s
  {
    if count != 0 {
      assert count * n == n + (count - 1) * n;
      ConcatOfChunks(s[n..], n, count - 1);
      assert s == s[..n] + s[n..];
    }
  }

  /** count rows of n copies of x lay out as count*n copies of x. */
  lemma {:induction false} ConcatFill<T>(x: T, n: nat, count: nat)
    ensures Concat(Fill(Fill(x, n), count)) == Fill(x, count * n)
  {
    if count != 0 {
      assert Fill(Fill(x, n), count)[1..] == Fill(Fill(x, n), count - 1);
      ConcatFill(x, n, count - 1);
      assert count * n == n + (count - 1) * n;
      assert Fill(x, count * n) == Fill(x, n) + Fill(x, (count - 1) * n);
    }
  }

  /** Row i of a uniform layout is the slice [i*n, (i+1)*n) of its concatenation. */
  lemma ConcatSlice<T>(ss: seq<seq<T>>, n: nat, i: nat)
    requires Uniform(ss, n) && i < |ss|
    ensures i * n + n <= |Concat(ss)|
    ensures Concat(ss)[i * n..i * n + n] == ss[i]
  {
    SplitAt(ss, i);
    assert Uniform(ss[..i], n);
    ConcatLength(ss[..i], n);
    ConcatLength(ss, n);
    MulMonotone(i + 1, |ss|, n);
  }

  /** Mapping every row, then laying them out, maps the layout. */
  lemma {:induction false} ConcatMap<A, B>(f: A -> B, ss: seq<seq<A>>)
    ensures Concat(seq(|ss|, i requires 0 <= i < |ss| => Map(f, ss[i]))) == Map(f, Concat(ss))
  {
    var mapped := seq(|ss|, i requires 0 <= i < |ss| => Map(f, ss[i]));
    if ss != [] {
      ConcatMap(f, ss[1..]);
      assert mapped[1..] == seq(|ss[1..]|, i requires 0 <= i < |ss[1..]| => Map(f, ss[1..][i]));
      assert Map(f, Concat(ss)) == Map(f, ss[0]) + Map(f, Concat(ss[1..]));
    }
  }

  /** Writing v at the first not-yet-written slot of done + Fill(x, m). */
  lemma FillStep<T>(done: seq<T>, v: T, x: T, m: nat)
    requires m > 0
    ensures (done + Fill(x, m))[|done| := v] == (done + [v]) + Fill(x, m - 1)
  {
    var lhs, rhs := (done + Fill(x, m))[|done| := v], (done + [v]) + Fill(x, m - 1);
    assert |lhs| == |rhs|;
    forall i | 0 <= i < |lhs|
      ensures lhs[i] == rhs[i]
    {
    }
  }

  /** The slices of length n of s that start at the given offsets (a
      row-pointer array over a buffer). */
  function Gather<T>(s: seq<T>, offsets: seq<nat>, n: nat): (rows: seq<seq<T>>)
    requires forall i :: 0 <= i < |offsets| ==> offsets[i] + n <= |s|
    ensures |rows| == |offsets| && Uniform(rows, n)
  {
    seq(|offsets|, i requires 0 <= i < |offsets| => s[offsets[i]..offsets[i] + n])
  }

  /** Offsets i * n over a buffer of count * n elements point at its rows:
      gathering them cuts the buffer into its count rows of n. */
  lemma GatherRows<T>(s: seq<T>, n: nat, count: nat, offsets: seq<nat>)
    requires |s| == count * n && |offsets| == count
    requires forall i :: 0 <= i < count ==> offsets[i] == i * n
    ensures forall i :: 0 <= i < count ==> offsets[i] + n <= |s|
    ensures Gather(s, offsets, n) == Chunks(s, n, count)
    ensures Concat(Gather(s, offsets, n)) == s
  {
    forall i | 0 <= i < count
      ensures offsets[i] + n <= |s| && s[offsets[i]..offsets[i] + n] == Chunks(s, n, count)[i]
    {
      ChunkAt(s, n, count, i);
    }
    ConcatOfChunks(s, n, count);
  }
}
