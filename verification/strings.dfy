/** The handful of Python `str` operations the modelled code relies on:
    `sep.join`, `str.split(sep)`, `str.strip()`, `str.lower()` on ASCII,
    `str(int)`, substring tests and the code-point order used by `sorted`. */
module Strings {

  /* ---------------------------------------------------------------- join */

  /** Python `sep.join(xs)`. */
  function Join(xs: seq<string>, sep: string): string
  {
    if |xs| == 0 then ""
    else if |xs| == 1 then xs[0]
    else xs[0] + sep + Join(xs[1..], sep)
  }

  /* --------------------------------------------------------------- split */

  function Count(s: string, c: char): nat
  {
    if |s| == 0 then 0 else (if s[0] == c then 1 else 0) + Count(s[1..], c)
  }

  /** `c in s` exactly when `s` counts at least one `c`. */
  lemma {:induction false} CountMember(s: string, c: char)
    ensures c in s <==> Count(s, c) > 0
  {
    if |s| > 0 {
      CountMember(s[1..], c);
      assert s == [s[0]] + s[1..];
    }
  }

  /** Python `s.split(c)` for a one-character separator: one more piece than
      there are separators, and no piece holds the separator. */
  function Split(s: string, c: char): (r: seq<string>)
    ensures |r| == Count(s, c) + 1
    ensures forall i :: 0 <= i < |r| ==> c !in r[i]
  {
    if |s| == 0 then [""]
    else
      var rest := Split(s[1..], c);
      if s[0] == c then [""] + rest
      else [[s[0]] + rest[0]] + rest[1..]
  }

  /** Joining the pieces of a split with the separator gives back the input. */
  lemma {:induction false} SplitThenJoin(s: string, c: char)
    ensures Join(Split(s, c), [c]) == s
  {
    if |s| == 0 {
    } else {
      var rest := Split(s[1..], c);
      SplitThenJoin(s[1..], c);
      if s[0] == c {
        assert Split(s, c) == [""] + rest;
        assert Join([""] + rest, [c]) == "" + [c] + Join(rest, [c]);
        assert s == [c] + s[1..];
        assert Join(Split(s, c), [c]) == [c] + s[1..];
      } else {
        var r := [[s[0]] + rest[0]] + rest[1..];
        assert Split(s, c) == r;
        JoinFront(s[0], rest, [c]);
        assert s == [s[0]] + s[1..];
      }
    }
  }

  /** Putting a character before the first piece puts it before the join. */
  lemma JoinFront(x: char, rest: seq<string>, sep: string)
    requires |rest| >= 1
    ensures Join([[x] + rest[0]] + rest[1..], sep) == [x] + Join(rest, sep)
  {
    var r := [[x] + rest[0]] + rest[1..];
    if |rest| > 1 {
      assert r[1..] == rest[1..];
      assert Join(r, sep) == [x] + rest[0] + sep + Join(rest[1..], sep);
    }
  }

  lemma {:induction false} SplitWithoutSeparator(a: string, c: char)
    requires c !in a
    ensures Split(a, c) == [a]
  {
    if |a| > 0 {
      SplitWithoutSeparator(a[1..], c);
      assert a == [a[0]] + a[1..];
    }
  }

  lemma {:induction false} SplitAtSeparator(a: string, b: string, c: char)
    requires c !in a
    ensures Split(a + [c] + b, c) == [a] + Split(b, c)
  {
    if |a| == 0 {
      assert a + [c] + b == [c] + b;
      assert ([c] + b)[1..] == b;
    } else {
      var s := a + [c] + b;
      assert s[0] == a[0];
      assert s[1..] == a[1..] + [c] + b;
      SplitAtSeparator(a[1..], b, c);
      assert [a[0]] + a[1..] == a;
    }
  }

  /** A text with one separator splits into the two sides. */
  lemma SplitOnce(a: string, b: string, c: char)
    requires c !in a && c !in b
    ensures Split(a + [c] + b, c) == [a, b]
  {
    SplitAtSeparator(a, b, c);
    SplitWithoutSeparator(b, c);
  }

  /** The last piece of a split is what follows the last separator. */
  lemma {:induction false} SplitLastPiece(a: string, b: string, c: char)
    requires c !in b
    ensures |Split(a + [c] + b, c)| >= 2
    ensures Split(a + [c] + b, c)[|Split(a + [c] + b, c)| - 1] == b
  {
    var s := a + [c] + b;
    if |a| == 0 {
      assert s == [c] + b && s[1..] == b;
      SplitWithoutSeparator(b, c);
    } else {
      assert s[0] == a[0] && s[1..] == a[1..] + [c] + b;
      SplitLastPiece(a[1..], b, c);
    }
  }

  /** Splitting a join of separator-free pieces gives back the pieces. */
  lemma {:induction false} JoinThenSplit(xs: seq<string>, c: char)
    requires |xs| >= 1
    requires forall i :: 0 <= i < |xs| ==> c !in xs[i]
    ensures Split(Join(xs, [c]), c) == xs
  {
    if |xs| == 1 {
      SplitWithoutSeparator(xs[0], c);
    } else {
      JoinThenSplit(xs[1..], c);
      assert Join(xs, [c]) == xs[0] + [c] + Join(xs[1..], [c]);
      SplitAtSeparator(xs[0], Join(xs[1..], [c]), c);
      assert xs == [xs[0]] + xs[1..];
    }
  }

  /** A character found in no piece and differing from the separator is
      absent from the join. */
  lemma {:induction false} JoinExcludes(xs: seq<string>, sep: char, c: char)
    requires c != sep
    requires forall i :: 0 <= i < |xs| ==> c !in xs[i]
    ensures c !in Join(xs, [sep])
  {
    if |xs| > 1 {
      JoinExcludes(xs[1..], sep, c);
    }
  }

  /* --------------------------------------------------------------- strip */

  /** Python `str.isspace()` on one character. */
  predicate IsWhitespace(c: char)
  {
    c == ' ' || ('\t' <= c <= '\r') || ('\U{1C}' <= c <= '\U{1F}')
    || c == '\U{85}' || c == '\U{A0}' || c == '\U{1680}'
    || ('\U{2000}' <= c <= '\U{200A}') || c == '\U{2028}' || c == '\U{2029}'
    || c == '\U{202F}' || c == '\U{205F}' || c == '\U{3000}'
  }

  function StripLeft(s: string): (r: string)
    ensures |r| <= |s| && r == s[|s| - |r|..]
    ensures forall k :: 0 <= k < |s| - |r| ==> IsWhitespace(s[k])
    ensures |r| > 0 ==> !IsWhitespace(r[0])
  {
    if |s| > 0 && IsWhitespace(s[0]) then StripLeft(s[1..]) else s
  }

  function StripRight(s: string): (r: string)
    ensures |r| <= |s| && r == s[..|r|]
    ensures forall k :: |r| <= k < |s| ==> IsWhitespace(s[k])
    ensures |r| > 0 ==> !IsWhitespace(r[|r| - 1])
  {
    if |s| > 0 && IsWhitespace(s[|s| - 1]) then StripRight(s[..|s| - 1]) else s
  }

  predicate AllWhitespace(s: string)
  {
    forall k :: 0 <= k < |s| ==> IsWhitespace(s[k])
  }

  /** Python `s.strip()`: the text left after dropping leading and trailing
      whitespace, itself neither starting nor ending with whitespace. */
  function Strip(s: string): (r: string)
    ensures exists pre: string, post: string :: s == pre + r + post && AllWhitespace(pre) && AllWhitespace(post)
    ensures |r| > 0 ==> !IsWhitespace(r[0]) && !IsWhitespace(r[|r| - 1])
  {
    var l := StripLeft(s);
    var r := StripRight(l);
    var pre := s[..|s| - |l|];
    var post := l[|r|..];
    StripParts(s, l, r);
    assert s == pre + r + post && AllWhitespace(pre) && AllWhitespace(post);
    r
  }

  /** What each half of `Strip` cuts off is whitespace. */
  lemma StripParts(s: string, l: string, r: string)
    requires |l| <= |s| && l == s[|s| - |l|..]
    requires forall k :: 0 <= k < |s| - |l| ==> IsWhitespace(s[k])
    requires |r| <= |l| && r == l[..|r|]
    requires forall k :: |r| <= k < |l| ==> IsWhitespace(l[k])
    ensures s == s[..|s| - |l|] + r + l[|r|..]
    ensures AllWhitespace(s[..|s| - |l|]) && AllWhitespace(l[|r|..])
  {
    var pre := s[..|s| - |l|];
    var post := l[|r|..];
    forall k | 0 <= k < |pre| ensures IsWhitespace(pre[k]) {
      assert pre[k] == s[k];
    }
    forall k | 0 <= k < |post| ensures IsWhitespace(post[k]) {
      assert post[k] == l[|r| + k];
    }
    assert s == pre + l;
    assert l == r + post;
  }

  /** Stripping only removes characters. */
  lemma StripExcludes(s: string, c: char)
    requires c !in s
    ensures c !in Strip(s)
  {
    var pre: string, post: string :| s == pre + Strip(s) + post && AllWhitespace(pre) && AllWhitespace(post);
  }

  /** Every character of the stripped text comes from the original. */
  lemma StripWithin(s: string, k: nat)
    requires k < |Strip(s)|
    ensures Strip(s)[k] in s
  {
    var pre: string, post: string :| s == pre + Strip(s) + post && AllWhitespace(pre) && AllWhitespace(post);
    assert Strip(s)[k] == s[|pre| + k];
  }

  predicate NoWhitespace(s: string)
  {
    forall k :: 0 <= k < |s| ==> !IsWhitespace(s[k])
  }

  /** Length of the leading run of non-whitespace characters. */
  function WordEnd(s: string): (n: nat)
    ensures n <= |s| && NoWhitespace(s[..n])
    ensures n == |s| || IsWhitespace(s[n])
  {
    if |s| == 0 || IsWhitespace(s[0]) then 0
    else
      var n := 1 + WordEnd(s[1..]);
      assert forall k | 1 <= k < n :: s[..n][k] == s[1..][..n - 1][k - 1];
      n
  }

  /** Python `s.split()` without arguments: the maximal runs of
      non-whitespace characters, with no empty pieces. */
  function Words(s: string): (r: seq<string>)
    ensures forall i :: 0 <= i < |r| ==> |r[i]| > 0 && NoWhitespace(r[i])
    decreases |s|
  {
    if |s| == 0 then []
    else if IsWhitespace(s[0]) then Words(s[1..])
    else
      var n := WordEnd(s);
      [s[..n]] + Words(s[n..])
  }

  lemma {:induction false} WordEndOf(w: string, rest: string)
    requires NoWhitespace(w)
    requires |rest| == 0 || IsWhitespace(rest[0])
    ensures WordEnd(w + rest) == |w|
  {
    if |w| > 0 {
      assert (w + rest)[0] == w[0];
      assert (w + rest)[1..] == w[1..] + rest;
      WordEndOf(w[1..], rest);
    } else {
      assert w + rest == rest;
    }
  }

  /** Splitting a single-space join of non-empty, whitespace-free words gives
      the words back. */
  lemma {:induction false} WordsOfJoin(ws: seq<string>)
    requires forall i :: 0 <= i < |ws| ==> |ws[i]| > 0 && NoWhitespace(ws[i])
    ensures Words(Join(ws, " ")) == ws
  {
    if |ws| == 1 {
      WordEndOf(ws[0], "");
      assert ws[0] + "" == ws[0];
      assert ws[0][|ws[0]|..] == "";
    } else if |ws| > 1 {
      var w := ws[0];
      var j := Join(ws[1..], " ");
      var s := w + (" " + j);
      assert Join(ws, " ") == s;
      WordEndOf(w, " " + j);
      assert s[0] == w[0];
      assert s[..|w|] == w && s[|w|..] == " " + j;
      assert (" " + j)[1..] == j;
      WordsOfJoin(ws[1..]);
      assert ws == [w] + ws[1..];
    }
  }

  predicate Trimmed(s: string)
  {
    |s| == 0 || (!IsWhitespace(s[0]) && !IsWhitespace(s[|s| - 1]))
  }

  /** Stripping text that neither starts nor ends with whitespace changes nothing. */
  lemma StripTrimmed(s: string)
    requires Trimmed(s)
    ensures Strip(s) == s
  {
  }

  /* ------------------------------------------------------- ASCII classes */

  predicate IsAsciiLower(c: char) { 'a' <= c <= 'z' }
  predicate IsAsciiUpper(c: char) { 'A' <= c <= 'Z' }
  predicate IsAsciiLetter(c: char) { IsAsciiLower(c) || IsAsciiUpper(c) }
  predicate IsDigit(c: char) { '0' <= c <= '9' }

  /** Python `str.lower()` restricted to one ASCII character. */
  function LowerChar(c: char): (r: char)
    ensures IsAsciiLetter(c) ==> IsAsciiLower(r)
    ensures !IsAsciiUpper(c) ==> r == c
  {
    if IsAsciiUpper(c) then (c as int + 32) as char else c
  }

  function Lower(s: string): (r: string)
    ensures |r| == |s|
    ensures forall i :: 0 <= i < |s| ==> r[i] == LowerChar(s[i])
  {
    if |s| == 0 then "" else [LowerChar(s[0])] + Lower(s[1..])
  }

  /** `sub in s` for strings. */
  predicate ContainsSub(s: string, sub: string)
  {
    exists i | 0 <= i <= |s| - |sub| :: OccursAt(s, sub, i)
  }

  predicate OccursAt(s: string, sub: string, i: nat)
  {
    i + |sub| <= |s| && s[i..i + |sub|] == sub
  }

  /* ------------------------------------------------------------ str(int) */

  function DigitChar(d: nat): char
    requires d < 10
  {
    ('0' as int + d) as char
  }

  /** Python `str(n)` for a non-negative integer. */
  function Decimal(n: nat): (r: string)
    ensures |r| > 0
    ensures forall i :: 0 <= i < |r| ==> IsDigit(r[i])
  {
    if n < 10 then [DigitChar(n)] else Decimal(n / 10) + [DigitChar(n % 10)]
  }

  /** The value of a string of decimal digits (Python `int(s)` on such text). */
  function DigitsValue(s: string): nat
    requires forall i :: 0 <= i < |s| ==> IsDigit(s[i])
  {
    if |s| == 0 then 0
    else assert IsDigit(s[|s| - 1]); 10 * DigitsValue(s[..|s| - 1]) + (s[|s| - 1] as int - '0' as int)
  }

  /** `int(str(n)) == n`: the decimal rendering loses nothing. */
  lemma {:induction false} DecimalRoundTrip(n: nat)
    ensures DigitsValue(Decimal(n)) == n
  {
    if n >= 10 {
      DecimalRoundTrip(n / 10);
      var r := Decimal(n);
      assert r[..|r| - 1] == Decimal(n / 10);
    }
  }

  /** Two numbers render alike only when they are equal. */
  lemma DecimalInjective(m: nat, n: nat)
    requires Decimal(m) == Decimal(n)
    ensures m == n
  {
    DecimalRoundTrip(m);
    DecimalRoundTrip(n);
  }

  /* ------------------------------------------------------------ ordering */

  /** Python `a <= b` on strings: code-point lexicographic order. */
  predicate StrLe(a: string, b: string)
  {
    if |a| == 0 then true
    else if |b| == 0 then false
    else if a[0] < b[0] then true
    else if a[0] > b[0] then false
    else StrLe(a[1..], b[1..])
  }

  lemma {:induction false} StrLeTotal(a: string, b: string)
    ensures StrLe(a, b) || StrLe(b, a)
  {
    if |a| > 0 && |b| > 0 && a[0] == b[0] {
      StrLeTotal(a[1..], b[1..]);
    }
  }

  lemma {:induction false} StrLeTransitive(a: string, b: string, c: string)
    requires StrLe(a, b) && StrLe(b, c)
    ensures StrLe(a, c)
  {
    if |a| > 0 && |b| > 0 && |c| > 0 && a[0] == b[0] && b[0] == c[0] {
      StrLeTransitive(a[1..], b[1..], c[1..]);
    }
  }

  lemma {:induction false} StrLeAntisymmetric(a: string, b: string)
    requires StrLe(a, b) && StrLe(b, a)
    ensures a == b
  {
    if |a| > 0 && |b| > 0 {
      StrLeAntisymmetric(a[1..], b[1..]);
      assert a == [a[0]] + a[1..] && b == [b[0]] + b[1..];
    }
  }

  /** Python `a <= b` on lists of strings: lexicographic over the elements. */
  predicate SeqLe(a: seq<string>, b: seq<string>)
  {
    if |a| == 0 then true
    else if |b| == 0 then false
    else if a[0] != b[0] then StrLe(a[0], b[0])
    else SeqLe(a[1..], b[1..])
  }

  lemma {:induction false} SeqLeTotal(a: seq<string>, b: seq<string>)
    ensures SeqLe(a, b) || SeqLe(b, a)
  {
    if |a| > 0 && |b| > 0 {
      if a[0] != b[0] {
        StrLeTotal(a[0], b[0]);
      } else {
        SeqLeTotal(a[1..], b[1..]);
      }
    }
  }

  lemma {:induction false} SeqLeTransitive(a: seq<string>, b: seq<string>, c: seq<string>)
    requires SeqLe(a, b) && SeqLe(b, c)
    ensures SeqLe(a, c)
  {
    if |a| > 0 && |b| > 0 && |c| > 0 {
      if a[0] == b[0] && b[0] == c[0] {
        SeqLeTransitive(a[1..], b[1..], c[1..]);
      } else if a[0] == b[0] {
        // a[0] == b[0] != c[0]
      } else if b[0] == c[0] {
        // a[0] != b[0] == c[0]
      } else {
        StrLeTransitive(a[0], b[0], c[0]);
        if a[0] == c[0] {
          StrLeAntisymmetric(a[0], b[0]);
        }
      }
    }
  }

  lemma {:induction false} SeqLeAntisymmetric(a: seq<string>, b: seq<string>)
    requires SeqLe(a, b) && SeqLe(b, a)
    ensures a == b
  {
    if |a| > 0 && |b| > 0 {
      if a[0] != b[0] {
        StrLeAntisymmetric(a[0], b[0]);
      } else {
        SeqLeAntisymmetric(a[1..], b[1..]);
        assert a == [a[0]] + a[1..] && b == [b[0]] + b[1..];
      }
    }
  }
}
