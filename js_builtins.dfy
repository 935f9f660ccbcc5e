/**
 * The parts of the JavaScript and Node.js standard library that the extension's
 * list decoder is built from, with the semantics those libraries give them:
 * `TypedArray.prototype.subarray` (a Node.js `Buffer` is a `Uint8Array`),
 * `Array.prototype.splice`, `String.prototype.split` with a one-character string
 * separator, and `Array.prototype.join`.
 *
 * Indices are unbounded integers; fractional, `NaN` and infinite arguments are
 * not modelled.
 */
module JsBuiltins {

  /** One octet of a Node.js `Buffer`. */
  newtype byte = x: int | 0 <= x < 0x100

  function Min(a: int, b: int): int { if a <= b then a else b }

  function Last<T>(s: seq<T>): T
    requires |s| > 0
  {
    s[|s| - 1]
  }

  /**
   * How `subarray` and `splice` read a start or end argument against a length:
   * a negative argument counts back from the end, and the result is clamped
   * to `[0, len]`.
   */
  function RelativeIndex(k: int, len: nat): (r: nat)
    ensures r <= len
    ensures 0 <= k <= len ==> r == k
  {
    if k < 0 then (if len + k < 0 then 0 else len + k)
    else (if k < len then k else len)
  }

  /**
   * `buf.subarray(start, end)`: the bytes from the relative index `start` up to
   * the relative index `end`, empty when `end` falls before `start`.
   */
  function Subarray<T>(buf: seq<T>, start: int, end: int): (r: seq<T>)
    ensures |r| <= |buf|
    // from the front: the first min(end, |buf|) elements
    ensures start == 0 && end >= 0 ==> r == buf[..Min(end, |buf|)]
    // from the back: all but the last -end elements
    ensures start == 0 && end < 0 ==> r == buf[..|buf| - Min(-end, |buf|)]
  {
    var from := RelativeIndex(start, |buf|);
    var to := RelativeIndex(end, |buf|);
    if from <= to then buf[from..to] else []
  }

  /**
   * `a.splice(start, deleteCount)`: the elements it removes and returns, and the
   * array it leaves behind. A negative `deleteCount` removes nothing; one that
   * runs past the end removes up to the end.
   */
  function Splice<T>(a: seq<T>, start: int, deleteCount: int): (r: (seq<T>, seq<T>))
    // the removed run sits at the relative start; what is left closes over it
    ensures var s := RelativeIndex(start, |a|);
      s <= |r.1| && r.1[..s] == a[..s] && a[..s] + r.0 + r.1[s..] == a
    ensures |r.0| <= |a| && |r.1| == |a| - |r.0|
    ensures |r.0| == if deleteCount <= 0 then 0 else Min(deleteCount, |a| - RelativeIndex(start, |a|))
    ensures deleteCount <= 0 ==> r.0 == []
    ensures start == 0 && deleteCount >= 0 ==> r.0 == a[..Min(deleteCount, |a|)]
  {
    var s := RelativeIndex(start, |a|);
    var n := if deleteCount < 0 then 0 else Min(deleteCount, |a| - s);
    (a[s..s + n], a[..s] + a[s + n..])
  }

  /** The number of times `c` occurs in `s`. */
  function Occurrences(s: string, c: char): nat
  {
    if s == [] then 0 else (if s[0] == c then 1 else 0) + Occurrences(s[1..], c)
  }

  /**
   * `s.split(sep)` for a one-character separator: the pieces between
   * separators, in order. There is always at least one piece, "" splits into
   * [""], and empty pieces (between adjacent separators, or before a leading or
   * after a trailing one) are kept.
   */
  function Split(s: string, sep: char): (pieces: seq<string>)
    ensures |pieces| >= 1
    ensures forall i :: 0 <= i < |pieces| ==> sep !in pieces[i]
    decreases |s|
  {
    if s == [] then [""]
    else if s[0] == sep then [""] + Split(s[1..], sep)
    else
      var rest := Split(s[1..], sep);
      [[s[0]] + rest[0]] + rest[1..]
  }

  /** `pieces.join(sep)` for a one-character separator. */
  function Join(pieces: seq<string>, sep: char): string
  {
    if pieces == [] then ""
    else if |pieces| == 1 then pieces[0]
    else pieces[0] + [sep] + Join(pieces[1..], sep)
  }

  /** Split makes one more piece than there are separators. */
  lemma {:induction false} SplitCount(s: string, sep: char)
    ensures |Split(s, sep)| == Occurrences(s, sep) + 1
    decreases |s|
  {
    if s != [] {
      SplitCount(s[1..], sep);
    }
  }

  /** Joining the pieces of a split with the same separator gives the string back. */
  lemma {:induction false} JoinSplit(s: string, sep: char)
    ensures Join(Split(s, sep), sep) == s
    decreases |s|
  {
    if s != [] {
      var rest := Split(s[1..], sep);
      JoinSplit(s[1..], sep);
      if s[0] == sep {
        assert Split(s, sep) == [""] + rest;
        assert ([""] + rest)[1..] == rest;
      } else {
        JoinPrepend([s[0]], rest, sep);
        assert Split(s, sep) == [[s[0]] + rest[0]] + rest[1..];
        assert [s[0]] + s[1..] == s;
      }
    }
  }

  /** Prepending text to the first piece prepends it to the joined string. */
  lemma JoinPrepend(p: string, pieces: seq<string>, sep: char)
    requires |pieces| >= 1
    ensures Join([p + pieces[0]] + pieces[1..], sep) == p + Join(pieces, sep)
  {
    var q := [p + pieces[0]] + pieces[1..];
    assert q[1..] == pieces[1..];
  }

  /** Text without a separator glues onto the first piece of what follows it. */
  lemma {:induction false} SplitSeparatorFree(p: string, t: string, sep: char)
    requires sep !in p
    ensures Split(p + t, sep) == [p + Split(t, sep)[0]] + Split(t, sep)[1..]
    decreases |p|
  {
    if p == [] {
      assert p + t == t;
      assert p + Split(t, sep)[0] == Split(t, sep)[0];
      assert [Split(t, sep)[0]] + Split(t, sep)[1..] == Split(t, sep);
    } else {
      SplitSeparatorFree(p[1..], t, sep);
      assert (p + t)[1..] == p[1..] + t;
      assert [p[0]] + (p[1..] + Split(t, sep)[0]) == p + Split(t, sep)[0];
    }
  }

  /**
   * Splitting a join gives the pieces back, provided there is at least one
   * piece and none contains the separator: the inverse of JoinSplit.
   */
  lemma {:induction false} SplitJoin(pieces: seq<string>, sep: char)
    requires |pieces| >= 1
    requires forall i :: 0 <= i < |pieces| ==> sep !in pieces[i]
    ensures Split(Join(pieces, sep), sep) == pieces
    decreases |pieces|
  {
    if |pieces| == 1 {
      SplitSeparatorFree(pieces[0], "", sep);
      assert pieces[0] + "" == pieces[0];
    } else {
      var t := Join(pieces[1..], sep);
      SplitJoin(pieces[1..], sep);
      SplitSeparatorFree(pieces[0], [sep] + t, sep);
      assert pieces[0] + [sep] + t == pieces[0] + ([sep] + t);
      assert ([sep] + t)[1..] == t;
      assert Split([sep] + t, sep) == [""] + pieces[1..];
      assert Split([sep] + t, sep)[1..] == pieces[1..];
      assert pieces[0] + "" == pieces[0];
      assert [pieces[0]] + pieces[1..] == pieces;
    }
  }

  /** Joining the first k pieces gives the text before the k-th separator of the full join. */
  lemma {:induction false} JoinTake(pieces: seq<string>, k: nat, sep: char)
    requires 0 < k < |pieces|
    ensures Join(pieces, sep) == Join(pieces[..k], sep) + [sep] + Join(pieces[k..], sep)
    decreases k
  {
    if k > 1 {
      JoinTake(pieces[1..], k - 1, sep);
      assert pieces[1..][..k - 1] == pieces[..k][1..];
      assert pieces[1..][k - 1..] == pieces[k..];
    } else {
      assert pieces[..1] == [pieces[0]];
      assert pieces[1..] == pieces[k..];
    }
  }

  /** A trailing separator ends the split with an empty piece. */
  lemma {:induction false} SplitEndsWithSeparator(s: string, sep: char)
    requires |s| > 0 && Last(s) == sep
    ensures |Split(s, sep)| >= 2 && Last(Split(s, sep)) == ""
    decreases |s|
  {
    if |s| > 1 {
      SplitEndsWithSeparator(s[1..], sep);
    } else {
      assert s[1..] == [];
    }
  }
}
