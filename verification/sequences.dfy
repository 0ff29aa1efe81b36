/**
 * Order-preserving sub-sequences and Python-style slicing.
 *
 * `Select(s, keep)` is the sub-sequence of `s` made of the elements whose
 * flag in `keep` is set, in their original order.  The list filters of the
 * pipeline (duplicate removal, containment merge, the filter in `segment`)
 * are all characterised as a `Select` with an explicit per-position mask.
 */
module Sequences {

  /** The elements `s[i]` with `keep[i]`, in order (defined from the back, as a scan appends). */
  function Select<T>(s: seq<T>, keep: seq<bool>): seq<T>
    requires |keep| == |s|
  {
    if |s| == 0 then []
    else Select(s[..|s| - 1], keep[..|s| - 1]) + (if keep[|s| - 1] then [s[|s| - 1]] else [])
  }

  /** A selection is never longer than what it selects from, and holds exactly the flagged elements. */
  lemma {:induction false} SelectMembers<T>(s: seq<T>, keep: seq<bool>)
    requires |keep| == |s|
    ensures |Select(s, keep)| <= |s|
    ensures forall x :: x in Select(s, keep) <==> exists i :: 0 <= i < |s| && keep[i] && s[i] == x
  {
    if |s| > 0 {
      var n := |s| - 1;
      SelectMembers(s[..n], keep[..n]);
      forall x
        ensures x in Select(s, keep) <==> exists i :: 0 <= i < |s| && keep[i] && s[i] == x
      {
        if x in Select(s, keep) {
          if x in Select(s[..n], keep[..n]) {
            var i :| 0 <= i < n && keep[..n][i] && s[..n][i] == x;
            assert keep[i] && s[i] == x;
          } else {
            assert keep[n] && s[n] == x;
          }
        }
        if exists i :: 0 <= i < |s| && keep[i] && s[i] == x {
          var i :| 0 <= i < |s| && keep[i] && s[i] == x;
          if i < n {
            assert keep[..n][i] && s[..n][i] == x;
          }
        }
      }
    }
  }

  /** When the first element is flagged, it is the first element of the selection. */
  lemma {:induction false} SelectHead<T>(s: seq<T>, keep: seq<bool>)
    requires |keep| == |s| && |s| > 0 && keep[0]
    ensures |Select(s, keep)| > 0 && Select(s, keep)[0] == s[0]
  {
    var n := |s| - 1;
    if n > 0 {
      SelectHead(s[..n], keep[..n]);
    }
  }

  /** Python's normalisation of a slice bound against a length `n`. */
  function PyIndex(i: int, n: nat): (k: nat)
    ensures k <= n
    ensures 0 <= i <= n ==> k == i
  {
    if i < 0 then (if n + i < 0 then 0 else n + i)
    else if i > n then n
    else i
  }

  /** `s[lo:hi]` with Python's rules: negative bounds count from the end, bounds are clamped, an inverted range is empty. */
  function PySlice<T>(s: seq<T>, lo: int, hi: int): (r: seq<T>)
    ensures |r| <= |s|
    ensures 0 <= lo <= hi <= |s| ==> r == s[lo..hi]
    ensures 0 <= hi <= lo ==> r == []
  {
    var a := PyIndex(lo, |s|);
    var b := PyIndex(hi, |s|);
    if a <= b then s[a..b] else []
  }

  /** Dropping the last element of `a + b`, for a non-empty `b`, drops it from `b`. */
  lemma DropLastAppend<T>(a: seq<T>, b: seq<T>)
    requires b != []
    ensures (a + b)[..|a + b| - 1] == a + b[..|b| - 1]
    ensures (a + b)[|a + b| - 1] == b[|b| - 1]
  {
  }

  /** A non-empty sequence is its prefix followed by its last element. */
  lemma SnocLast<T>(s: seq<T>)
    requires s != []
    ensures s[..|s| - 1] + [s[|s| - 1]] == s
  {
  }

  /** A non-empty sequence is its first element followed by the rest. */
  lemma ConsFirst<T>(s: seq<T>)
    requires s != []
    ensures [s[0]] + s[1..] == s
  {
  }

  lemma AppendEmpty<T>(s: seq<T>)
    ensures s + [] == s && [] + s == s
  {
  }

  lemma SeqAssoc<T>(a: seq<T>, b: seq<T>, c: seq<T>)
    ensures a + b + c == a + (b + c)
  {
  }
}
