// Cutting a byte string at a separator and putting it back together.
//
// QByteArray::split(char) and QString::split(QString) both scan from the
// front and cut at every occurrence of the separator that does not overlap
// an earlier cut; Split models both (a one-byte separator is the first).
module Separated {

  /** A byte array or string; each element stands for one byte. */
  type Bytes = seq<char>

  /** `sep` occurs in `s` at index `i`. */
  predicate At(s: Bytes, i: int, sep: Bytes) {
    0 <= i && i + |sep| <= |s| && s[i..i + |sep|] == sep
  }

  /** `sep` occurs nowhere in `s`. */
  predicate Free(s: Bytes, sep: Bytes) {
    forall i :: 0 <= i <= |s| ==> !At(s, i, sep)
  }

  /** When `p` is followed by `sep`, the first occurrence of `sep` a
      front-to-back scan meets is the one right after `p`. */
  predicate Delimits(p: Bytes, sep: Bytes) {
    forall i :: 0 <= i < |p| ==> !At(p + sep, i, sep)
  }

  /** The pieces of `s` between the occurrences of `sep`, scanning from the
      front; there is always at least one piece. */
  function Split(s: Bytes, sep: Bytes): (r: seq<Bytes>)
    requires sep != []
    ensures r != []
    decreases |s|
  {
    if |s| < |sep| then [s]
    else if s[..|sep|] == sep then [[]] + Split(s[|sep|..], sep)
    else var rest := Split(s[1..], sep); [[s[0]] + rest[0]] + rest[1..]
  }

  /** The pieces with `sep` between each two of them. */
  function Join(pieces: seq<Bytes>, sep: Bytes): Bytes
    requires pieces != []
  {
    if |pieces| == 1 then pieces[0] else pieces[0] + sep + Join(pieces[1..], sep)
  }

  /** Each item followed by the terminator `t`, in order. */
  function Terminated(items: seq<Bytes>, t: Bytes): Bytes {
    if items == [] then [] else items[0] + t + Terminated(items[1..], t)
  }

  /** Splitting loses nothing: joining the pieces gives the input back. */
  lemma JoinSplit(s: Bytes, sep: Bytes)
    requires sep != []
    ensures Join(Split(s, sep), sep) == s
    decreases |s|, 1
  {
    if |s| < |sep| {
    } else if s[..|sep|] == sep {
      JoinSplitAtSeparator(s, sep);
    } else {
      JoinSplitAtByte(s, sep);
    }
  }

  lemma JoinSplitAtSeparator(s: Bytes, sep: Bytes)
    requires sep != [] && |s| >= |sep| && s[..|sep|] == sep
    ensures Join(Split(s, sep), sep) == s
    decreases |s|, 0
  {
    var tail := s[|sep|..];
    var rest := Split(tail, sep);
    assert Split(s, sep) == [[]] + rest;
    JoinSplit(tail, sep);
    assert ([[]] + rest)[1..] == rest;
    assert Join([[]] + rest, sep) == [] + sep + tail;
    assert s == sep + tail;
  }

  lemma JoinSplitAtByte(s: Bytes, sep: Bytes)
    requires sep != [] && |s| >= |sep| && s[..|sep|] != sep
    ensures Join(Split(s, sep), sep) == s
    decreases |s|, 0
  {
    var rest := Split(s[1..], sep);
    assert Split(s, sep) == [[s[0]] + rest[0]] + rest[1..];
    JoinSplit(s[1..], sep);
    JoinCons(s[0], rest, sep);
    assert s == [s[0]] + s[1..];
  }

  /** A byte put in front of the first piece is put in front of the join. */
  lemma JoinCons(c: char, pieces: seq<Bytes>, sep: Bytes)
    requires pieces != []
    ensures Join([[c] + pieces[0]] + pieces[1..], sep) == [c] + Join(pieces, sep)
  {
    var p := [[c] + pieces[0]] + pieces[1..];
    if |pieces| > 1 {
      assert p[1..] == pieces[1..];
      assert ([c] + pieces[0]) + sep + Join(pieces[1..], sep) == [c] + (pieces[0] + sep + Join(pieces[1..], sep));
    }
  }

  /** A string in which the separator does not occur is a single piece. */
  lemma {:induction false} SplitFree(s: Bytes, sep: Bytes)
    requires sep != [] && Free(s, sep)
    ensures Split(s, sep) == [s]
    decreases |s|
  {
    if |s| >= |sep| {
      assert !At(s, 0, sep);
      forall i | 0 <= i <= |s[1..]|
        ensures !At(s[1..], i, sep)
      {
        if At(s[1..], i, sep) {
          assert s[1..][i..i + |sep|] == s[i + 1..i + 1 + |sep|];
          assert At(s, i + 1, sep);
        }
      }
      SplitFree(s[1..], sep);
      assert s == [s[0]] + s[1..];
    }
  }

  /** A piece that the separator delimits is cut off whole. */
  lemma {:induction false} SplitAfter(p: Bytes, sep: Bytes, rest: Bytes)
    requires sep != [] && Delimits(p, sep)
    ensures Split(p + sep + rest, sep) == [p] + Split(rest, sep)
    decreases |p|
  {
    var s := p + sep + rest;
    if p == [] {
      assert s[..|sep|] == sep;
      assert s[|sep|..] == rest;
    } else {
      assert !At(p + sep, 0, sep);
      assert s[..|sep|] == (p + sep)[0..|sep|];
      DelimitsTail(p, sep);
      SplitAfter(p[1..], sep, rest);
      assert s[1..] == p[1..] + sep + rest;
      assert p == [p[0]] + p[1..];
    }
  }

  lemma DelimitsTail(p: Bytes, sep: Bytes)
    requires p != [] && Delimits(p, sep)
    ensures Delimits(p[1..], sep)
  {
    forall i | 0 <= i < |p[1..]|
      ensures !At(p[1..] + sep, i, sep)
    {
      assert (p[1..] + sep)[i..i + |sep|] == (p + sep)[i + 1..i + 1 + |sep|];
      assert !At(p + sep, i + 1, sep);
    }
  }

  /** A delimited piece contains no separator of its own. */
  lemma DelimitsFree(p: Bytes, sep: Bytes)
    requires sep != [] && Delimits(p, sep)
    ensures Free(p, sep)
  {
    forall i | 0 <= i <= |p|
      ensures !At(p, i, sep)
    {
      if At(p, i, sep) {
        assert (p + sep)[i..i + |sep|] == p[i..i + |sep|];
        assert At(p + sep, i, sep);
      }
    }
  }

  /** Joining items the separator delimits and splitting again gives the
      items back. */
  lemma {:induction false} SplitJoin(items: seq<Bytes>, sep: Bytes)
    requires sep != [] && items != []
    requires forall k :: 0 <= k < |items| ==> Delimits(items[k], sep)
    ensures Split(Join(items, sep), sep) == items
    decreases |items|
  {
    if |items| == 1 {
      DelimitsFree(items[0], sep);
      SplitFree(items[0], sep);
    } else {
      SplitJoin(items[1..], sep);
      SplitAfter(items[0], sep, Join(items[1..], sep));
      assert items == [items[0]] + items[1..];
    }
  }

  /** Terminating every item is joining them and terminating the last. */
  lemma {:induction false} TerminatedJoin(items: seq<Bytes>, t: Bytes)
    requires items != []
    ensures Terminated(items, t) == Join(items, t) + t
    decreases |items|
  {
    if |items| == 1 {
      assert items[1..] == [];
    } else {
      TerminatedJoin(items[1..], t);
    }
  }

  lemma {:induction false} TerminatedAppend(a: seq<Bytes>, b: seq<Bytes>, t: Bytes)
    ensures Terminated(a + b, t) == Terminated(a, t) + Terminated(b, t)
    decreases |a|
  {
    if a == [] {
      assert a + b == b;
    } else {
      assert (a + b)[1..] == a[1..] + b;
      TerminatedAppend(a[1..], b, t);
    }
  }
}
