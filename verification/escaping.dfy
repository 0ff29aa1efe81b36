/**
 * `escape_special_chars` of pdftolatex/utils.py: the seven LaTeX special
 * characters each get a backslash in front.  The source does it with one
 * `str.replace` per special character; the method below keeps that loop and
 * is proved equal to the per-character map `Escape`.
 */
module Escaping {
  import opened Strings

  /** The special characters, in the order the source replaces them. */
  const SpecialChars: seq<char> := ['&', '%', '$', '#', '_', '{', '}']

  /** Each character of `s` that occurs in `cs` gets a backslash in front. */
  function EscapeAmong(s: string, cs: seq<char>): string {
    if s == [] then []
    else (if s[0] in cs then ['\\', s[0]] else [s[0]]) + EscapeAmong(s[1..], cs)
  }

  /** The per-character escaping map. */
  function Escape(s: string): string {
    EscapeAmong(s, SpecialChars)
  }

  /**
   * One `replace` step: escaping one more character, not yet escaped and
   * not the backslash, on top of a partial escape.
   */
  lemma {:induction false} ReplaceStep(s: string, cs: seq<char>, c: char)
    requires c !in cs && c != '\\'
    ensures ReplaceAll(EscapeAmong(s, cs), c, ['\\', c]) == EscapeAmong(s, cs + [c])
  {
    if s != [] {
      ReplaceStep(s[1..], cs, c);
      var head := if s[0] in cs then ['\\', s[0]] else [s[0]];
      ReplaceAppend(head, EscapeAmong(s[1..], cs), c, ['\\', c]);
      if s[0] in cs {
        assert ReplaceAll(head, c, ['\\', c]) == head;
      }
    }
  }

  lemma {:induction false} EscapeAmongNothing(s: string)
    ensures EscapeAmong(s, []) == s
  {
    if s != [] {
      EscapeAmongNothing(s[1..]);
      assert [s[0]] + s[1..] == s;
    }
  }

  /** `escape_special_chars(s)`. */
  method EscapeSpecialChars(s0: string) returns (s: string)
    ensures s == Escape(s0)
  {
    var specialChars := SpecialChars;
    s := s0;
    EscapeAmongNothing(s0);
    for i := 0 to |specialChars|
      invariant s == EscapeAmong(s0, specialChars[..i])
    {
      var c := specialChars[i];
      assert specialChars[..i + 1] == specialChars[..i] + [c];
      assert c !in specialChars[..i] && c != '\\' by {
        assert i == 0 || i == 1 || i == 2 || i == 3 || i == 4 || i == 5 || i == 6;
      }
      ReplaceStep(s0, specialChars[..i], c);
      if c in s {
        s := ReplaceAll(s, c, ['\\', c]);
      } else {
        ReplaceAbsent(s, c, ['\\', c]);
      }
    }
    assert specialChars[..|specialChars|] == SpecialChars;
  }

  /** Number of special characters in `s`. */
  function CountSpecial(s: string): nat {
    if s == [] then 0 else (if s[0] in SpecialChars then 1 else 0) + CountSpecial(s[1..])
  }

  /** One backslash is inserted per special character. */
  lemma {:induction false} EscapeLength(s: string)
    ensures |Escape(s)| == |s| + CountSpecial(s)
  {
    if s != [] {
      EscapeLength(s[1..]);
    }
  }

  /** A string without special characters comes back unchanged. */
  lemma {:induction false} EscapeNoSpecials(s: string)
    requires forall i :: 0 <= i < |s| ==> s[i] !in SpecialChars
    ensures Escape(s) == s
  {
    if s != [] {
      EscapeNoSpecials(s[1..]);
      assert [s[0]] + s[1..] == s;
    }
  }

  /** Escaped output never starts with a special character (it starts with a backslash instead). */
  lemma EscapeHeadNotSpecial(s: string)
    requires |Escape(s)| > 0
    ensures Escape(s)[0] !in SpecialChars
  {
  }

  /** Every special character of the output sits right after a backslash. */
  lemma {:induction false} EscapeGuardsSpecials(s: string)
    ensures forall i :: 0 <= i < |Escape(s)| && Escape(s)[i] in SpecialChars ==> i > 0 && Escape(s)[i - 1] == '\\'
  {
    if s != [] {
      EscapeGuardsSpecials(s[1..]);
      var head := if s[0] in SpecialChars then ['\\', s[0]] else [s[0]];
      var tail := Escape(s[1..]);
      assert Escape(s) == head + tail;
      forall i | 0 <= i < |Escape(s)| && Escape(s)[i] in SpecialChars
        ensures i > 0 && Escape(s)[i - 1] == '\\'
      {
        if i >= |head| {
          var j := i - |head|;
          assert tail[j] == Escape(s)[i];
        }
      }
    }
  }

  /** Drops the backslash in front of each special character. */
  function Unescape(t: string): string {
    if |t| >= 2 && t[0] == '\\' && t[1] in SpecialChars then [t[1]] + Unescape(t[2..])
    else if t == [] then []
    else [t[0]] + Unescape(t[1..])
  }

  /** Removing the inserted backslashes recovers the input. */
  lemma {:induction false} UnescapeEscape(s: string)
    ensures Unescape(Escape(s)) == s
  {
    if s != [] {
      UnescapeEscape(s[1..]);
      var tail := Escape(s[1..]);
      if s[0] in SpecialChars {
        assert Escape(s) == ['\\', s[0]] + tail;
        assert (['\\', s[0]] + tail)[2..] == tail;
      } else {
        assert Escape(s) == [s[0]] + tail;
        assert ([s[0]] + tail)[1..] == tail;
        if |tail| > 0 {
          EscapeHeadNotSpecial(s[1..]);
        }
      }
      assert [s[0]] + s[1..] == s;
    }
  }

  /**
   * Escaping is not idempotent: a second application escapes the
   * backslash-guarded character again.
   */
  lemma EscapeNotIdempotent()
    ensures Escape(Escape("&")) != Escape("&")
  {
    assert Escape("&") == "\\&";
    assert Escape("\\&") == "\\\\&";
  }
}
