/** The string operations the scanner relies on: Python's ASCII character
    classes, `str.strip()`, `str.split('\n')`, `str.count`, `in` on strings
    and `str.startswith`, all over `string` (a sequence of code points). */
module Text {

  /** `str.isspace` on the ASCII range: tab, line feed, vertical tab, form
      feed, carriage return, the separators 0x1C..0x1F and the space. */
  predicate IsWhitespace(c: char) {
    var k := c as int;
    k == 32 || 9 <= k <= 13 || 28 <= k <= 31
  }

  /** `str.isdigit` on the ASCII range. */
  predicate IsDigit(c: char) {
    '0' <= c <= '9'
  }

  /** `str.isupper` on the ASCII range. */
  predicate IsUpper(c: char) {
    'A' <= c <= 'Z'
  }

  /** Membership in `string.punctuation`: the 32 printable ASCII characters
      that are neither letters, digits nor the space. */
  predicate IsPunctuation(c: char) {
    var k := c as int;
    33 <= k <= 47 || 58 <= k <= 64 || 91 <= k <= 96 || 123 <= k <= 126
  }

  /** The code points `chr(0)` .. `chr(255)`. */
  predicate IsLatin1(c: char) {
    (c as int) < 256
  }

  /** `sum(p(c) for c in s)`: how many characters of `s` satisfy `p`. */
  function Count(s: string, p: char -> bool): (r: nat)
    ensures r <= |s|
  {
    if |s| == 0 then 0 else (if p(s[0]) then 1 else 0) + Count(s[1..], p)
  }

  lemma {:induction false} CountAppend(s: string, t: string, p: char -> bool)
    ensures Count(s + t, p) == Count(s, p) + Count(t, p)
  {
    if |s| == 0 {
      assert s + t == t;
    } else {
      assert (s + t)[1..] == s[1..] + t;
      CountAppend(s[1..], t, p);
    }
  }

  /** Every character is counted exactly when the count is the length. */
  lemma {:induction false} CountAll(s: string, p: char -> bool)
    ensures Count(s, p) == |s| <==> forall i :: 0 <= i < |s| ==> p(s[i])
  {
    if |s| > 0 {
      CountAll(s[1..], p);
      if Count(s, p) == |s| {
        forall i | 0 <= i < |s| ensures p(s[i]) {
          if i > 0 { assert s[i] == s[1..][i - 1]; }
        }
      }
      if forall i :: 0 <= i < |s| ==> p(s[i]) {
        assert p(s[0]);
        assert forall i :: 0 <= i < |s[1..]| ==> p(s[1..][i]) by {
          forall i | 0 <= i < |s[1..]| ensures p(s[1..][i]) {
            assert s[1..][i] == s[i + 1];
          }
        }
      }
    }
  }

  lemma {:induction false} CountComplement(s: string, p: char -> bool)
    ensures Count(s, c => !p(c)) == |s| - Count(s, p)
  {
    if |s| > 0 {
      CountComplement(s[1..], p);
    }
  }

  /** `s.count(c)` for a single character `c`. */
  function Occurrences(s: string, c: char): (r: nat)
    ensures r <= |s|
  {
    Count(s, x => x == c)
  }

  // ----- str.strip() -----

  function TrimLeft(s: string): (r: string)
    decreases |s|
  {
    if |s| > 0 && IsWhitespace(s[0]) then TrimLeft(s[1..]) else s
  }

  function TrimRight(s: string): (r: string)
    decreases |s|
  {
    if |s| > 0 && IsWhitespace(s[|s| - 1]) then TrimRight(s[..|s| - 1]) else s
  }

  /** `s.strip()`. */
  function Strip(s: string): string
  {
    TrimRight(TrimLeft(s))
  }

  /** `TrimLeft` drops exactly the leading whitespace: it leaves a suffix
      that is empty or starts with a non-whitespace character. */
  lemma {:induction false} TrimLeftSpec(s: string)
    ensures |TrimLeft(s)| <= |s| && TrimLeft(s) == s[|s| - |TrimLeft(s)|..]
    ensures forall i :: 0 <= i < |s| - |TrimLeft(s)| ==> IsWhitespace(s[i])
    ensures TrimLeft(s) == [] || !IsWhitespace(TrimLeft(s)[0])
    decreases |s|
  {
    if |s| > 0 && IsWhitespace(s[0]) {
      TrimLeftSpec(s[1..]);
    }
  }

  /** `TrimRight` drops exactly the trailing whitespace. */
  lemma {:induction false} TrimRightSpec(s: string)
    ensures |TrimRight(s)| <= |s| && TrimRight(s) == s[..|TrimRight(s)|]
    ensures forall i :: |TrimRight(s)| <= i < |s| ==> IsWhitespace(s[i])
    ensures TrimRight(s) == [] || !IsWhitespace(TrimRight(s)[|TrimRight(s)| - 1])
    decreases |s|
  {
    if |s| > 0 && IsWhitespace(s[|s| - 1]) {
      TrimRightSpec(s[..|s| - 1]);
    }
  }

  /** `r` sits in `s` at offset `k` with only whitespace around it. */
  ghost predicate Framed(s: string, r: string, k: int) {
    && 0 <= k && k + |r| <= |s|
    && s[k..k + |r|] == r
    && (forall i :: 0 <= i < k ==> IsWhitespace(s[i]))
    && (forall i :: k + |r| <= i < |s| ==> IsWhitespace(s[i]))
  }

  /** The stripped line is the slice of `s` framed by whitespace whose ends
      are not whitespace; it is empty exactly when `s` is all whitespace. */
  lemma StripSpec(s: string)
    ensures exists k :: Framed(s, Strip(s), k)
    ensures var r := Strip(s); r == [] || (!IsWhitespace(r[0]) && !IsWhitespace(r[|r| - 1]))
    ensures Strip(s) == [] <==> forall i :: 0 <= i < |s| ==> IsWhitespace(s[i])
  {
    var left := TrimLeft(s);
    var r := TrimRight(left);
    assert r == Strip(s);
    TrimLeftSpec(s);
    TrimRightSpec(left);
    var k := |s| - |left|;
    assert s[k..k + |r|] == r by {
      assert left[..|r|] == r;
    }
    assert forall i :: k + |r| <= i < |s| ==> IsWhitespace(s[i]) by {
      forall i | k + |r| <= i < |s| ensures IsWhitespace(s[i]) {
        assert s[i] == left[i - k];
      }
    }
    assert Framed(s, r, k);
    if r != [] {
      assert s[k] == r[0];
    }
  }

  lemma StripIdempotent(s: string)
    ensures Strip(Strip(s)) == Strip(s)
  {
    StripSpec(s);
  }

  // ----- str.split('\n') and its inverse '\n'.join -----

  /** `s.split('\n')`: never empty, one more piece than there are line
      feeds, and no piece holds a line feed. */
  function Split(s: string): (r: seq<string>)
    ensures |r| == Occurrences(s, '\n') + 1
    ensures forall i :: 0 <= i < |r| ==> '\n' !in r[i]
    decreases |s|
  {
    if |s| == 0 then [""]
    else
      var rest := Split(s[1..]);
      if s[0] == '\n' then [""] + rest
      else [[s[0]] + rest[0]] + rest[1..]
  }

  /** `'\n'.join(pieces)`. */
  function Join(pieces: seq<string>): string
  {
    if |pieces| == 0 then ""
    else if |pieces| == 1 then pieces[0]
    else pieces[0] + "\n" + Join(pieces[1..])
  }

  lemma {:induction false} JoinConsChar(c: char, pieces: seq<string>)
    requires |pieces| >= 1
    ensures Join([[c] + pieces[0]] + pieces[1..]) == [c] + Join(pieces)
  {
    var ps := [[c] + pieces[0]] + pieces[1..];
    assert ps[0] == [c] + pieces[0];
    assert ps[1..] == pieces[1..];
    if |pieces| > 1 {
      assert Join(ps) == ([c] + pieces[0]) + "\n" + Join(pieces[1..]);
      assert Join(pieces) == pieces[0] + "\n" + Join(pieces[1..]);
      assert ([c] + pieces[0]) + "\n" + Join(pieces[1..])
          == [c] + (pieces[0] + "\n" + Join(pieces[1..]));
    }
  }

  /** Joining the pieces of a split gives back the split text. */
  lemma {:induction false} JoinSplit(s: string)
    ensures Join(Split(s)) == s
    decreases |s|
  {
    if |s| > 0 {
      var rest := Split(s[1..]);
      JoinSplit(s[1..]);
      if s[0] == '\n' {
        assert ([""] + rest)[1..] == rest;
        if |rest| == 1 {
          assert Join([""] + rest) == "" + "\n" + rest[0];
        }
        assert s == [s[0]] + s[1..];
      } else {
        JoinConsChar(s[0], rest);
        assert s == [s[0]] + s[1..];
      }
    }
  }

  lemma {:induction false} SplitNoNewline(x: string)
    requires '\n' !in x
    ensures Split(x) == [x]
    decreases |x|
  {
    if |x| > 0 {
      assert '\n' !in x[1..] by {
        forall i | 0 <= i < |x[1..]| ensures x[1..][i] != '\n' {
          assert x[1..][i] == x[i + 1];
        }
      }
      SplitNoNewline(x[1..]);
      assert [x[0]] + x[1..] == x;
    }
  }

  lemma {:induction false} SplitAtNewline(x: string, y: string)
    requires '\n' !in x
    ensures Split(x + "\n" + y) == [x] + Split(y)
    decreases |x|
  {
    var s := x + "\n" + y;
    if |x| == 0 {
      assert s == "\n" + y;
      assert s[1..] == y;
    } else {
      assert s[1..] == x[1..] + "\n" + y;
      assert '\n' !in x[1..] by {
        forall i | 0 <= i < |x[1..]| ensures x[1..][i] != '\n' {
          assert x[1..][i] == x[i + 1];
        }
      }
      SplitAtNewline(x[1..], y);
      assert [x[0]] + x[1..] == x;
    }
  }

  /** Splitting a join of line-feed-free pieces gives back the pieces. */
  lemma {:induction false} SplitJoin(pieces: seq<string>)
    requires |pieces| >= 1
    requires forall i :: 0 <= i < |pieces| ==> '\n' !in pieces[i]
    ensures Split(Join(pieces)) == pieces
    decreases |pieces|
  {
    if |pieces| == 1 {
      SplitNoNewline(pieces[0]);
    } else {
      SplitJoin(pieces[1..]);
      SplitAtNewline(pieces[0], Join(pieces[1..]));
      assert [pieces[0]] + pieces[1..] == pieces;
    }
  }

  // ----- `in` and startswith on strings -----

  /** `s.startswith(prefix)`. */
  predicate StartsWith(s: string, prefix: string) {
    |prefix| <= |s| && s[..|prefix|] == prefix
  }

  ghost predicate OccursAt(hay: string, needle: string, k: int) {
    0 <= k && k + |needle| <= |hay| && hay[k..k + |needle|] == needle
  }

  /** `needle in hay`. */
  predicate Contains(hay: string, needle: string)
    decreases |hay|
  {
    StartsWith(hay, needle) || (|hay| > 0 && Contains(hay[1..], needle))
  }

  /** `Contains` holds exactly when the needle occurs at some offset. */
  lemma {:induction false} ContainsIff(hay: string, needle: string)
    ensures Contains(hay, needle) <==> exists k :: OccursAt(hay, needle, k)
    decreases |hay|
  {
    if StartsWith(hay, needle) {
      assert OccursAt(hay, needle, 0);
    } else if |hay| == 0 {
      assert |needle| > 0;
    } else {
      ContainsIff(hay[1..], needle);
      if exists k :: OccursAt(hay[1..], needle, k) {
        var k :| OccursAt(hay[1..], needle, k);
        assert hay[k + 1..k + 1 + |needle|] == hay[1..][k..k + |needle|];
        assert OccursAt(hay, needle, k + 1);
      }
      forall k | OccursAt(hay, needle, k)
        ensures OccursAt(hay[1..], needle, k - 1)
      {
        assert hay[0..|needle|] == hay[..|needle|];
        if k > 0 {
          assert hay[1..][k - 1..k - 1 + |needle|] == hay[k..k + |needle|];
        }
      }
    }
  }

  lemma ContainsInfix(a: string, needle: string, b: string)
    ensures Contains(a + needle + b, needle)
  {
    var hay := a + needle + b;
    assert hay[|a|..|a| + |needle|] == needle;
    assert OccursAt(hay, needle, |a|);
    ContainsIff(hay, needle);
  }
}
