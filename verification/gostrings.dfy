/**
  Go's byte strings and the few `strings` package operations the service uses:
  TrimPrefix, TrimSuffix, Split with a one-byte separator, Join, ReplaceAll,
  ToUpper (ASCII) and the built-in ordering `<` on strings.
*/
module GoStrings {

  /**
    One byte of a Go string. The model writes each byte as the character with
    the same code (U+0000 to U+00FF), so multi-byte UTF-8 text appears as its
    individual bytes. The type itself admits every character; no property
    proved here depends on the codes staying below U+0100.
  */
  type byte = char

  /** A Go `string`: an immutable sequence of bytes. */
  type Bytes = seq<byte>

  /** `r` is a (not necessarily proper) suffix of `s`. */
  predicate IsSuffix(r: Bytes, s: Bytes)
  {
    |r| <= |s| && r == s[|s| - |r|..]
  }

  /** strings.HasSuffix */
  predicate HasSuffix(s: Bytes, suffix: Bytes)
  {
    |suffix| <= |s| && s[|s| - |suffix|..] == suffix
  }

  /** strings.TrimPrefix: removes one copy of `prefix` if `s` starts with it. */
  function TrimPrefix(s: Bytes, prefix: Bytes): (r: Bytes)
    ensures prefix <= s ==> prefix + r == s
    ensures !(prefix <= s) ==> r == s
  {
    if prefix <= s then s[|prefix|..] else s
  }

  /** strings.TrimSuffix: removes one copy of `suffix` if `s` ends with it. */
  function TrimSuffix(s: Bytes, suffix: Bytes): (r: Bytes)
    ensures HasSuffix(s, suffix) ==> r + suffix == s
    ensures !HasSuffix(s, suffix) ==> r == s
  {
    if HasSuffix(s, suffix) then s[..|s| - |suffix|] else s
  }

  /** Number of occurrences of byte `c` in `s`. */
  function Count(s: Bytes, c: byte): nat
  {
    if |s| == 0 then 0 else (if s[0] == c then 1 else 0) + Count(s[1..], c)
  }

  /** strings.Join */
  function Join(parts: seq<Bytes>, sep: Bytes): Bytes
  {
    if |parts| == 0 then []
    else if |parts| == 1 then parts[0]
    else parts[0] + sep + Join(parts[1..], sep)
  }

  /**
    strings.Split with a one-byte separator: the pieces between consecutive
    separators. There is always at least one piece, none contains the
    separator, and joining them back with the separator gives `s` again.
  */
  function Split(s: Bytes, sep: byte): (parts: seq<Bytes>)
    ensures |parts| == Count(s, sep) + 1
    ensures forall i :: 0 <= i < |parts| ==> sep !in parts[i]
    ensures Join(parts, [sep]) == s
    decreases |s|
  {
    if |s| == 0 then [[]]
    else
      var rest := Split(s[1..], sep);
      if s[0] == sep then
        [[]] + rest
      else
        assert |rest| == 1 || rest == [rest[0]] + rest[1..];
        var r := [[s[0]] + rest[0]] + rest[1..];
        assert |rest| > 1 ==> r[1..] == rest[1..];
        r
  }

  /** Splitting a string that has no separator gives the string itself. */
  lemma {:induction false} SplitWithoutSeparator(a: Bytes, sep: byte)
    requires sep !in a
    ensures Split(a, sep) == [a]
    decreases |a|
  {
    if |a| > 0 {
      SplitWithoutSeparator(a[1..], sep);
      assert [a[0]] + a[1..] == a;
    }
  }

  /** Splitting `a + sep + t` with `a` separator-free peels off `a` as the first piece. */
  lemma {:induction false} SplitAfterPiece(a: Bytes, sep: byte, t: Bytes)
    requires sep !in a
    ensures Split(a + [sep] + t, sep) == [a] + Split(t, sep)
    decreases |a|
  {
    var s := a + [sep] + t;
    if |a| == 0 {
      assert s[1..] == t;
    } else {
      assert s[1..] == a[1..] + [sep] + t;
      SplitAfterPiece(a[1..], sep, t);
      assert [a[0]] + a[1..] == a;
    }
  }

  /**
    The inverse direction of Split's round trip: a non-empty list of
    separator-free pieces, joined with the separator and split again, is
    recovered exactly.
  */
  lemma {:induction false} SplitJoin(parts: seq<Bytes>, sep: byte)
    requires |parts| >= 1
    requires forall i :: 0 <= i < |parts| ==> sep !in parts[i]
    ensures Split(Join(parts, [sep]), sep) == parts
    decreases |parts|
  {
    if |parts| == 1 {
      SplitWithoutSeparator(parts[0], sep);
    } else {
      SplitJoin(parts[1..], sep);
      SplitAfterPiece(parts[0], sep, Join(parts[1..], [sep]));
      assert [parts[0]] + parts[1..] == parts;
    }
  }

  /** The parts written one after another, as a strings.Builder fed part by part produces them. */
  function Concat(parts: seq<Bytes>): Bytes
    decreases |parts|
  {
    if |parts| == 0 then [] else Concat(parts[..|parts| - 1]) + parts[|parts| - 1]
  }

  /** Writing two runs of parts is writing the first run, then the second. */
  lemma {:induction false} ConcatAppend(x: seq<Bytes>, y: seq<Bytes>)
    ensures Concat(x + y) == Concat(x) + Concat(y)
    decreases |y|
  {
    if |y| == 0 {
      assert x + y == x;
    } else {
      var n := |y| - 1;
      ConcatAppend(x, y[..n]);
      assert (x + y)[..|x + y| - 1] == x + y[..n];
      assert (x + y)[|x + y| - 1] == y[n];
    }
  }

  /** Lines, each followed by a line break. */
  function Unlines(lines: seq<Bytes>): Bytes
    decreases |lines|
  {
    if |lines| == 0 then [] else lines[0] + "\n" + Unlines(lines[1..])
  }

  lemma {:induction false} UnlinesAppend(x: seq<Bytes>, y: seq<Bytes>)
    ensures Unlines(x + y) == Unlines(x) + Unlines(y)
    decreases |x|
  {
    if |x| == 0 {
      assert x + y == y;
    } else {
      UnlinesAppend(x[1..], y);
      assert (x + y)[1..] == x[1..] + y;
    }
  }

  /** Lines each followed by a line break are the lines joined by line breaks, plus one final break. */
  lemma {:induction false} UnlinesIsJoin(lines: seq<Bytes>)
    ensures Unlines(lines) == Join(lines + [""], "\n")
    decreases |lines|
  {
    if |lines| == 0 {
      assert lines + [""] == [""];
    } else {
      UnlinesIsJoin(lines[1..]);
      assert (lines + [""])[1..] == lines[1..] + [""];
    }
  }

  /** ASCII upper-casing of one byte. */
  function UpperByte(c: byte): byte
  {
    if 'a' <= c <= 'z' then (c as int - 32) as char else c
  }

  /** strings.ToUpper restricted to ASCII: every lower-case letter becomes upper-case. */
  function ToUpper(s: Bytes): (r: Bytes)
    ensures |r| == |s|
    ensures forall i :: 0 <= i < |r| ==> !('a' <= r[i] <= 'z')
    ensures forall i :: 0 <= i < |s| && !('a' <= s[i] <= 'z') ==> r[i] == s[i]
    ensures forall i :: 0 <= i < |s| && 'a' <= s[i] <= 'z' ==> r[i] as int - 'A' as int == s[i] as int - 'a' as int
  {
    seq(|s|, i requires 0 <= i < |s| => UpperByte(s[i]))
  }

  /** strings.ReplaceAll with one-byte old and new strings. */
  function ReplaceAll(s: Bytes, from: byte, to: byte): (r: Bytes)
    ensures |r| == |s|
    ensures from != to ==> from !in r
    ensures forall i :: 0 <= i < |s| ==> r[i] == (if s[i] == from then to else s[i])
  {
    seq(|s|, i requires 0 <= i < |s| => if s[i] == from then to else s[i])
  }

  /**
    Go's `a <= b` on strings: byte-wise lexicographic order in which a proper
    prefix comes first.
  */
  predicate LexLe(a: Bytes, b: Bytes)
    decreases |a|
  {
    |a| == 0 || (|b| > 0 && (a[0] < b[0] || (a[0] == b[0] && LexLe(a[1..], b[1..]))))
  }

  /** Go's `a < b` on strings. */
  predicate Less(a: Bytes, b: Bytes)
  {
    LexLe(a, b) && a != b
  }

  /** Any two strings are comparable. */
  lemma {:induction false} LexLeTotal(a: Bytes, b: Bytes)
    ensures LexLe(a, b) || LexLe(b, a)
    decreases |a|
  {
    if |a| > 0 && |b| > 0 && a[0] == b[0] {
      LexLeTotal(a[1..], b[1..]);
    }
  }

  lemma {:induction false} LexLeAntisymmetric(a: Bytes, b: Bytes)
    requires LexLe(a, b) && LexLe(b, a)
    ensures a == b
    decreases |a|
  {
    if |a| > 0 {
      LexLeAntisymmetric(a[1..], b[1..]);
      assert a == [a[0]] + a[1..] && b == [b[0]] + b[1..];
    }
  }

  lemma {:induction false} LexLeTransitive(a: Bytes, b: Bytes, c: Bytes)
    requires LexLe(a, b) && LexLe(b, c)
    ensures LexLe(a, c)
    decreases |a|
  {
    if |a| > 0 && a[0] == b[0] && b[0] == c[0] {
      LexLeTransitive(a[1..], b[1..], c[1..]);
    }
  }

  /** Position `k` is the first where `a` and `b` differ, and `a` has the smaller byte there. */
  predicate SmallerAt(a: Bytes, b: Bytes, k: int)
  {
    0 <= k < |a| && k < |b| && a[..k] == b[..k] && a[k] < b[k]
  }

  lemma {:induction false} PrefixIsLexLe(a: Bytes, b: Bytes)
    requires a <= b
    ensures LexLe(a, b)
    decreases |a|
  {
    if |a| > 0 {
      assert a[1..] <= b[1..];
      PrefixIsLexLe(a[1..], b[1..]);
    }
  }

  lemma {:induction false} SmallerAtIsLexLe(a: Bytes, b: Bytes, k: int)
    requires SmallerAt(a, b, k)
    ensures LexLe(a, b)
    decreases k
  {
    if k > 0 {
      assert a[0] == a[..k][0] == b[..k][0] == b[0];
      assert a[1..][..k-1] == a[..k][1..] && b[1..][..k-1] == b[..k][1..];
      SmallerAtIsLexLe(a[1..], b[1..], k - 1);
    }
  }

  lemma {:induction false} LexLeIsPrefixOrSmallerAt(a: Bytes, b: Bytes)
    requires LexLe(a, b)
    ensures a <= b || exists k :: SmallerAt(a, b, k)
    decreases |a|
  {
    if |a| > 0 {
      if a[0] < b[0] {
        assert SmallerAt(a, b, 0);
      } else {
        LexLeIsPrefixOrSmallerAt(a[1..], b[1..]);
        if a[1..] <= b[1..] {
          assert a == [a[0]] + a[1..] && b == [b[0]] + b[1..][..|a| - 1] + b[|a|..];
        } else {
          var k :| SmallerAt(a[1..], b[1..], k);
          assert a[..k+1] == [a[0]] + a[1..][..k] && b[..k+1] == [b[0]] + b[1..][..k];
          assert SmallerAt(a, b, k + 1);
        }
      }
    }
  }

  /**
    An independent description of Go's string order: `a <= b` exactly when
    `a` is a prefix of `b`, or at the first position where they differ `a`
    has the smaller byte.
  */
  lemma LexLeFirstDifference(a: Bytes, b: Bytes)
    ensures LexLe(a, b) <==> (a <= b || exists k :: SmallerAt(a, b, k))
  {
    if LexLe(a, b) {
      LexLeIsPrefixOrSmallerAt(a, b);
    } else if a <= b {
      PrefixIsLexLe(a, b);
    } else if k :| SmallerAt(a, b, k) {
      SmallerAtIsLexLe(a, b, k);
    }
  }
}
