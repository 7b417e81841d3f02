/** Splitting a decoded string on a one-byte separator, as the extension lists
    (on ' ') and the built-in kernel list (on ';') are split. */
module Separators {
  import opened Marshal

  const Space: uint8 := 0x20
  const Semicolon: uint8 := 0x3B

  /** Number of occurrences of `c` in `s`. */
  function Count(s: seq<uint8>, c: uint8): nat
  {
    if s == [] then 0 else (if s[0] == c then 1 else 0) + Count(s[1..], c)
  }

  /** `s.split(sep)`: the runs between separators, in order.  Empty runs are
      kept, so k separators give k + 1 pieces, and no piece holds a separator. */
  function Split(s: seq<uint8>, sep: uint8): (pieces: seq<seq<uint8>>)
    ensures |pieces| == Count(s, sep) + 1
    ensures forall i :: 0 <= i < |pieces| ==> sep !in pieces[i]
  {
    if s == [] then [[]]
    else
      var rest := Split(s[1..], sep);
      if s[0] == sep then [[]] + rest
      else [[s[0]] + rest[0]] + rest[1..]
  }

  /** The pieces written one after another with `sep` between neighbours. */
  function Join(pieces: seq<seq<uint8>>, sep: uint8): (s: seq<uint8>)
    ensures |pieces| > 0 ==> |s| >= |pieces| - 1
  {
    if pieces == [] then []
    else if |pieces| == 1 then pieces[0]
    else pieces[0] + [sep] + Join(pieces[1..], sep)
  }

  /** Joining the pieces of a split with the same separator restores the string. */
  lemma {:induction false} JoinSplit(s: seq<uint8>, sep: uint8)
    ensures Join(Split(s, sep), sep) == s
  {
    if s != [] {
      var rest := Split(s[1..], sep);
      JoinSplit(s[1..], sep);
      if s[0] == sep {
        assert Split(s, sep) == [[]] + rest;
        assert ([[]] + rest)[1..] == rest;
        assert s == [] + [sep] + s[1..];
      } else if |rest| == 1 {
        assert Split(s, sep) == [[s[0]] + rest[0]];
        assert s == [s[0]] + s[1..];
      } else {
        var pieces := Split(s, sep);
        assert pieces == [[s[0]] + rest[0]] + rest[1..];
        assert pieces[1..] == rest[1..];
        assert Join(rest, sep) == rest[0] + [sep] + Join(rest[1..], sep);
        assert s == [s[0]] + s[1..];
      }
    }
  }

  /** Splitting a string that starts with a separator-free run `a`. */
  lemma {:induction false} SplitAfterRun(a: seq<uint8>, rest: seq<uint8>, sep: uint8)
    requires sep !in a
    ensures Split(a + rest, sep) == [a + Split(rest, sep)[0]] + Split(rest, sep)[1..]
  {
    if a != [] {
      var p := Split(rest, sep);
      assert (a + rest)[1..] == a[1..] + rest;
      SplitAfterRun(a[1..], rest, sep);
      var r := Split(a[1..] + rest, sep);
      assert r[0] == a[1..] + p[0] && r[1..] == p[1..];
      assert (a + rest)[0] == a[0] != sep;
      assert Split(a + rest, sep) == [[a[0]] + r[0]] + r[1..];
      assert [a[0]] + (a[1..] + p[0]) == a + p[0];
    } else {
      var pieces := Split(rest, sep);
      assert a + rest == rest && a + pieces[0] == pieces[0];
      assert pieces == [pieces[0]] + pieces[1..];
    }
  }

  /** Splitting the join of separator-free pieces gives the pieces back. */
  lemma {:induction false} SplitJoin(pieces: seq<seq<uint8>>, sep: uint8)
    requires |pieces| > 0
    requires forall i :: 0 <= i < |pieces| ==> sep !in pieces[i]
    ensures Split(Join(pieces, sep), sep) == pieces
  {
    var a := pieces[0];
    if |pieces| == 1 {
      SplitAfterRun(a, [], sep);
      assert a + [] == a;
      assert Split([], sep) == [[]];
    } else {
      var tail := Join(pieces[1..], sep);
      SplitJoin(pieces[1..], sep);
      assert Join(pieces, sep) == a + ([sep] + tail);
      SplitAfterRun(a, [sep] + tail, sep);
      assert ([sep] + tail)[1..] == tail;
      assert Split([sep] + tail, sep) == [[]] + pieces[1..];
      assert a + [] == a;
    }
  }

  /** A string that ends in the separator (as extension strings often do)
      splits into at least two pieces, the last of them empty. */
  lemma {:induction false} SplitTrailingSeparator(s: seq<uint8>, sep: uint8)
    requires |s| > 0 && s[|s| - 1] == sep
    ensures |Split(s, sep)| >= 2 && Split(s, sep)[|Split(s, sep)| - 1] == []
  {
    var rest := Split(s[1..], sep);
    if |s| == 1 {
      assert s[1..] == [];
    } else {
      SplitTrailingSeparator(s[1..], sep);
    }
  }
}
