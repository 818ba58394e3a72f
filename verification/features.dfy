/** The line translator shared by the scanner and the training script: a
    line becomes four numbers, three character-class ratios and the Shannon
    entropy of its `chr(0)` .. `chr(255)` frequencies. The base-2 logarithm
    is a parameter, since its floating-point value is not part of this
    model; lemmas that need a fact about it take that fact as a premise. */
module FeatureExtraction {
  import opened Text

  /** The 4-element feature list, in the order the classifier expects. */
  datatype Features = Features(
    digitRatio: real,
    punctuationRatio: real,
    upperRatio: real,
    entropy: real)

  /** The contribution `-p * log2(p)` of symbol `chr(x)`, or nothing when
      the symbol does not occur. */
  function EntropyTerm(text: string, x: nat, log2: real -> real): real
    requires 0 < |text| && x < 256
  {
    var p := Occurrences(text, x as char) as real / |text| as real;
    if p > 0.0 then -p * log2(p) else 0.0
  }

  /** The entropy accumulated over the symbols `chr(0)` .. `chr(n - 1)`. */
  function EntropySum(text: string, n: nat, log2: real -> real): real
    requires 0 < |text| && n <= 256
  {
    if n == 0 then 0.0 else EntropySum(text, n - 1, log2) + EntropyTerm(text, n - 1, log2)
  }

  /** `calculate_entropy`: 0 for the empty string, otherwise the sum over
      all 256 symbols. Each probability divides by the full length, so
      characters beyond `chr(255)` lower the others' weight but add no term
      of their own. */
  function Entropy(text: string, log2: real -> real): real
  {
    if |text| == 0 then 0.0 else EntropySum(text, 256, log2)
  }

  /** What the real base-2 logarithm satisfies on the interval (0, 1]. */
  ghost predicate NonPositiveOnUnitInterval(log2: real -> real) {
    forall p: real :: 0.0 < p <= 1.0 ==> log2(p) <= 0.0
  }

  lemma DivisionBounds(k: real, m: real)
    requires 0.0 <= k <= m && 0.0 < m
    ensures 0.0 <= k / m <= 1.0
    ensures k == m ==> k / m == 1.0
  {
  }

  lemma {:induction false} EntropySumNonNegative(text: string, n: nat, log2: real -> real)
    requires 0 < |text| && n <= 256
    requires NonPositiveOnUnitInterval(log2)
    ensures EntropySum(text, n, log2) >= 0.0
  {
    if n > 0 {
      EntropySumNonNegative(text, n - 1, log2);
      var k := Occurrences(text, (n - 1) as char);
      var p := k as real / |text| as real;
      if p > 0.0 {
        DivisionBounds(k as real, |text| as real);
        assert p <= 1.0;
        assert log2(p) <= 0.0;
        assert -p * log2(p) >= 0.0;
      }
    }
  }

  /** With a logarithm that is non-positive on (0, 1], entropy is never
      negative. */
  lemma EntropyNonNegative(text: string, log2: real -> real)
    requires NonPositiveOnUnitInterval(log2)
    ensures Entropy(text, log2) >= 0.0
  {
    if |text| > 0 {
      EntropySumNonNegative(text, 256, log2);
    }
  }

  lemma {:induction false} OccurrencesInRepetition(text: string, c: char, d: char)
    requires forall i :: 0 <= i < |text| ==> text[i] == c
    ensures Occurrences(text, d) == if d == c then |text| else 0
  {
    if |text| > 0 {
      OccurrencesInRepetition(text[1..], c, d);
    }
  }

  lemma {:induction false} EntropySumOfRepetition(text: string, c: char, n: nat, log2: real -> real)
    requires 0 < |text| && n <= 256
    requires forall i :: 0 <= i < |text| ==> text[i] == c
    requires log2(1.0) == 0.0
    ensures EntropySum(text, n, log2) == 0.0
  {
    if n > 0 {
      EntropySumOfRepetition(text, c, n - 1, log2);
      OccurrencesInRepetition(text, c, (n - 1) as char);
      if (n - 1) as char == c {
        DivisionBounds(|text| as real, |text| as real);
        assert EntropyTerm(text, n - 1, log2) == -1.0 * log2(1.0);
      } else {
        assert EntropyTerm(text, n - 1, log2) == 0.0;
      }
    }
  }

  /** A line made of one repeated character has entropy 0, given
      `log2(1) == 0`; a character beyond `chr(255)` adds no term at all. */
  lemma EntropyOfRepetition(text: string, c: char, log2: real -> real)
    requires forall i :: 0 <= i < |text| ==> text[i] == c
    requires log2(1.0) == 0.0
    ensures Entropy(text, log2) == 0.0
  {
    if |text| > 0 {
      EntropySumOfRepetition(text, c, 256, log2);
    }
  }

  lemma {:induction false} EntropySumOfUniform(text: string, n: nat, log2: real -> real)
    requires |text| == 256 && n <= 256
    requires forall c: char :: IsLatin1(c) ==> Occurrences(text, c) == 1
    requires log2(1.0 / 256.0) == -8.0
    ensures EntropySum(text, n, log2) == n as real / 32.0
  {
    if n > 0 {
      EntropySumOfUniform(text, n - 1, log2);
      assert Occurrences(text, (n - 1) as char) == 1;
      assert EntropyTerm(text, n - 1, log2) == -(1.0 / 256.0) * -8.0;
    }
  }

  /** A line in which each of the 256 symbols occurs once has entropy 8,
      given `log2(1/256) == -8`. */
  lemma EntropyOfUniform(text: string, log2: real -> real)
    requires |text| == 256
    requires forall c: char :: IsLatin1(c) ==> Occurrences(text, c) == 1
    requires log2(1.0 / 256.0) == -8.0
    ensures Entropy(text, log2) == 8.0
  {
    EntropySumOfUniform(text, 256, log2);
  }

  /** How many characters of `text` are among `chr(0)` .. `chr(n - 1)`,
      counted symbol by symbol as the entropy loop does. */
  ghost function SymbolTotal(text: string, n: nat): nat
    requires n <= 256
  {
    if n == 0 then 0 else SymbolTotal(text, n - 1) + Occurrences(text, (n - 1) as char)
  }

  lemma {:induction false} SymbolTotalEmpty(n: nat)
    requires n <= 256
    ensures SymbolTotal("", n) == 0
  {
    if n > 0 {
      SymbolTotalEmpty(n - 1);
    }
  }

  lemma {:induction false} SymbolTotalCons(c: char, t: string, n: nat)
    requires n <= 256
    ensures SymbolTotal([c] + t, n) == SymbolTotal(t, n) + (if (c as int) < n then 1 else 0)
  {
    if n > 0 {
      SymbolTotalCons(c, t, n - 1);
      assert ([c] + t)[1..] == t;
      assert Occurrences([c] + t, (n - 1) as char)
          == (if c == (n - 1) as char then 1 else 0) + Occurrences(t, (n - 1) as char);
    }
  }

  /** The symbol counts the entropy weighs add up to the number of Latin-1
      characters, and to the whole length only when every character is
      Latin-1: other characters contribute to no term. */
  lemma {:induction false} SymbolTotalIsLatin1Count(text: string)
    ensures SymbolTotal(text, 256) == Count(text, IsLatin1)
    ensures SymbolTotal(text, 256) == |text| <==> forall i :: 0 <= i < |text| ==> IsLatin1(text[i])
  {
    if |text| > 0 {
      SymbolTotalIsLatin1Count(text[1..]);
      assert text == [text[0]] + text[1..];
      SymbolTotalCons(text[0], text[1..], 256);
      assert SymbolTotal(text, 256) == SymbolTotal(text[1..], 256) + (if IsLatin1(text[0]) then 1 else 0);
      assert Count(text, IsLatin1) == (if IsLatin1(text[0]) then 1 else 0) + Count(text[1..], IsLatin1);
    } else {
      SymbolTotalEmpty(256);
    }
    CountAll(text, IsLatin1);
  }

  /** Digits, punctuation and upper-case letters are disjoint classes. */
  lemma {:induction false} ClassCountsBound(text: string)
    ensures Count(text, IsDigit) + Count(text, IsPunctuation) + Count(text, IsUpper) <= |text|
  {
    if |text| > 0 {
      ClassCountsBound(text[1..]);
    }
  }

  lemma RatiosBounded(a: real, b: real, c: real, n: real)
    requires 0.0 <= a && 0.0 <= b && 0.0 <= c && 0.0 < n
    requires a + b + c <= n
    ensures 0.0 <= a / n <= 1.0 && 0.0 <= b / n <= 1.0 && 0.0 <= c / n <= 1.0
    ensures a / n + b / n + c / n <= 1.0
  {
    assert a / n + b / n + c / n == (a + b + c) / n;
    assert (a + b + c) / n <= 1.0;
  }

  /** `extract_features`: the zero vector for the empty line; otherwise
      each ratio is its class count over the full length, so the three
      ratios are fractions whose sum is at most 1, and the last entry is
      the line's entropy. */
  function ExtractFeatures(text: string, log2: real -> real): (r: Features)
    ensures |text| == 0 ==> r == Features(0.0, 0.0, 0.0, 0.0)
    ensures 0.0 <= r.digitRatio <= 1.0
    ensures 0.0 <= r.punctuationRatio <= 1.0
    ensures 0.0 <= r.upperRatio <= 1.0
    ensures r.digitRatio + r.punctuationRatio + r.upperRatio <= 1.0
    ensures |text| > 0 ==> r.digitRatio == Count(text, IsDigit) as real / |text| as real
    ensures |text| > 0 ==> r.punctuationRatio == Count(text, IsPunctuation) as real / |text| as real
    ensures |text| > 0 ==> r.upperRatio == Count(text, IsUpper) as real / |text| as real
    ensures r.entropy == Entropy(text, log2)
  {
    var length := |text|;
    if length == 0 then Features(0.0, 0.0, 0.0, 0.0)
    else
      var n := length as real;
      var digits := Count(text, IsDigit) as real;
      var punctuation := Count(text, IsPunctuation) as real;
      var upper := Count(text, IsUpper) as real;
      ClassCountsBound(text);
      RatiosBounded(digits, punctuation, upper, n);
      Features(digits / n, punctuation / n, upper / n, Entropy(text, log2))
  }
}
