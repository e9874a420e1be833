/** The string operations the quiz grades answers with: Python's `str.strip()`
    and `str.lower()`, the comparison built from them, and the decimal
    rendering used to name a question's form field (`f"q{q.id}"`). */
module Text {

  /** The characters Python's `str.isspace()` accepts, which `str.strip()`
      with no argument removes from both ends. */
  predicate IsSpace(c: char) {
    var n := c as int;
    (0x09 <= n <= 0x0D) || (0x1C <= n <= 0x20) || n == 0x85 || n == 0xA0 || n == 0x1680
    || (0x2000 <= n <= 0x200A) || n == 0x2028 || n == 0x2029 || n == 0x202F
    || n == 0x205F || n == 0x3000
  }

  predicate AllSpace(s: string) {
    forall i :: 0 <= i < |s| ==> IsSpace(s[i])
  }

  /** Neither end of `s` is whitespace: nothing for `strip()` to remove. */
  predicate Trimmed(s: string) {
    s == [] || (!IsSpace(s[0]) && !IsSpace(s[|s| - 1]))
  }

  /** `str.lstrip()`: drop leading whitespace. */
  function TrimStart(s: string): (r: string)
    ensures |r| <= |s| && r == s[|s| - |r|..]
    ensures forall i :: 0 <= i < |s| - |r| ==> IsSpace(s[i])
    ensures r == [] || !IsSpace(r[0])
  {
    if s != [] && IsSpace(s[0]) then
      var r := TrimStart(s[1..]);
      DropFirst(s, |s| - 1 - |r|);
      r
    else s
  }

  /** Indexing and slicing the tail of `s` is indexing and slicing `s` one
      place further on. */
  lemma DropFirst(s: string, k: nat)
    requires s != [] && k <= |s| - 1
    ensures s[1..][k..] == s[k + 1..]
    ensures forall i :: 0 <= i < |s| - 1 ==> s[1..][i] == s[i + 1]
  {
  }

  /** `str.rstrip()`: drop trailing whitespace. */
  function TrimEnd(s: string): (r: string)
    ensures |r| <= |s| && r == s[..|r|]
    ensures forall i :: |r| <= i < |s| ==> IsSpace(s[i])
    ensures r == [] || !IsSpace(r[|r| - 1])
    ensures r != [] ==> r[0] == s[0]
  {
    if s != [] && IsSpace(s[|s| - 1]) then TrimEnd(s[..|s| - 1]) else s
  }

  /** `str.strip()`: the result has no whitespace at either end (what it is
      cut from is stated by `StripSplits` below). */
  function Strip(s: string): (r: string)
    ensures |r| <= |s|
    ensures Trimmed(r)
  {
    TrimEnd(TrimStart(s))
  }

  /** ASCII case folding: upper-case Latin letters become lower-case, every
      other character is kept. */
  predicate IsUpper(c: char) {
    'A' <= c <= 'Z'
  }

  function LowerChar(c: char): (r: char)
    ensures !IsUpper(r)
    ensures IsUpper(c) || r == c
    ensures IsUpper(c) ==> 'a' <= r <= 'z' && r as int - 'a' as int == c as int - 'A' as int
    ensures IsSpace(r) <==> IsSpace(c)
  {
    if IsUpper(c) then (c as int + 32) as char else c
  }

  /** `str.lower()`, restricted to ASCII letters. */
  function Lower(s: string): (r: string)
    ensures |r| == |s|
    ensures forall i :: 0 <= i < |s| ==> r[i] == LowerChar(s[i])
  {
    if s == [] then [] else [LowerChar(s[0])] + Lower(s[1..])
  }

  /** The normal form both sides of a grading comparison are brought to. */
  function Normalize(s: string): string {
    Lower(Strip(s))
  }

  /** `user_answer.strip().lower() == q.correct_answer.strip().lower()` */
  predicate IsCorrect(answer: string, correct: string) {
    Normalize(answer) == Normalize(correct)
  }

  // ---------------------------------------------------------------- strip

  lemma {:induction false} TrimStartOfPadded(w: string, t: string)
    requires AllSpace(w) && (t == [] || !IsSpace(t[0]))
    ensures TrimStart(w + t) == t
    decreases |w|
  {
    if w != [] {
      assert (w + t)[1..] == w[1..] + t;
      TrimStartOfPadded(w[1..], t);
    } else {
      assert w + t == t;
    }
  }

  lemma {:induction false} TrimEndOfPadded(t: string, w: string)
    requires AllSpace(w) && (t == [] || !IsSpace(t[|t| - 1]))
    ensures TrimEnd(t + w) == t
    decreases |w|
  {
    if w != [] {
      assert (t + w)[..|t + w| - 1] == t + w[..|w| - 1];
      TrimEndOfPadded(t, w[..|w| - 1]);
    } else {
      assert t + w == t;
    }
  }

  /** The characterisation of `strip()`: whatever whitespace surrounds a
      trimmed string is exactly what is removed. */
  lemma StripOfPadded(w1: string, t: string, w2: string)
    requires AllSpace(w1) && AllSpace(w2) && Trimmed(t)
    ensures Strip(w1 + t + w2) == t
  {
    if t == [] {
      assert w1 + t + w2 == (w1 + w2) + [];
      TrimStartOfPadded(w1 + w2, []);
    } else {
      assert w1 + t + w2 == w1 + (t + w2);
      TrimStartOfPadded(w1, t + w2);
      TrimEndOfPadded(t, w2);
    }
  }

  /** Every string is its stripped form with whitespace around it. */
  lemma StripSplits(s: string) returns (w1: string, w2: string)
    ensures AllSpace(w1) && AllSpace(w2)
    ensures s == w1 + Strip(s) + w2
  {
    var t := TrimStart(s);
    var r := TrimEnd(t);
    w1 := TrimStartSplits(s);
    w2 := TrimEndSplits(t);
    Regroup(s, w1, t, r, w2);
  }

  lemma TrimStartSplits(s: string) returns (w: string)
    ensures AllSpace(w) && s == w + TrimStart(s)
  {
    w := s[..|s| - |TrimStart(s)|];
  }

  lemma TrimEndSplits(t: string) returns (w: string)
    ensures AllSpace(w) && t == TrimEnd(t) + w
  {
    w := t[|TrimEnd(t)|..];
  }

  lemma Regroup(s: string, w1: string, t: string, r: string, w2: string)
    requires s == w1 + t && t == r + w2
    ensures s == w1 + r + w2
  {
  }

  /** Stripping twice is stripping once. */
  lemma StripIdempotent(s: string)
    ensures Strip(Strip(s)) == Strip(s)
  {
    StripOfPadded([], Strip(s), []);
    assert [] + Strip(s) + [] == Strip(s);
  }

  /** Leading and trailing whitespace added to any string is removed again. */
  lemma StripIgnoresPadding(w1: string, s: string, w2: string)
    requires AllSpace(w1) && AllSpace(w2)
    ensures Strip(w1 + s + w2) == Strip(s)
  {
    var v1, v2 := StripSplits(s);
    Regroup5(w1, v1, Strip(s), v2, w2);
    AllSpaceAppend(w1, v1);
    AllSpaceAppend(v2, w2);
    StripOfPadded(w1 + v1, Strip(s), v2 + w2);
  }

  lemma AllSpaceAppend(a: string, b: string)
    requires AllSpace(a) && AllSpace(b)
    ensures AllSpace(a + b)
  {
  }

  lemma Regroup5(a: string, b: string, c: string, d: string, e: string)
    ensures a + (b + c + d) + e == (a + b) + c + (d + e)
  {
  }

  // ---------------------------------------------------------------- lower

  lemma LowerAppend(a: string, b: string)
    ensures Lower(a + b) == Lower(a) + Lower(b)
  {
  }

  /** Folding the case of an already folded string changes nothing. */
  lemma LowerIdempotent(s: string)
    ensures Lower(Lower(s)) == Lower(s)
  {
  }

  /** Case folding keeps whitespace where it is, so it commutes with
      `strip()`: `s.lower().strip() == s.strip().lower()`. */
  lemma StripLowerCommute(s: string)
    ensures Strip(Lower(s)) == Lower(Strip(s))
  {
    var w1, w2 := StripSplits(s);
    var t := Strip(s);
    LowerPreservesSpace(w1);
    LowerPreservesSpace(w2);
    LowerPreservesTrimmed(t);
    calc {
      Lower(s);
    ==
      Lower((w1 + t) + w2);
    == { LowerAppend(w1 + t, w2); }
      Lower(w1 + t) + Lower(w2);
    == { LowerAppend(w1, t); }
      Lower(w1) + Lower(t) + Lower(w2);
    }
    StripOfPadded(Lower(w1), Lower(t), Lower(w2));
  }

  lemma LowerPreservesSpace(w: string)
    requires AllSpace(w)
    ensures AllSpace(Lower(w))
  {
  }

  lemma LowerPreservesTrimmed(t: string)
    requires Trimmed(t)
    ensures Trimmed(Lower(t))
  {
  }

  // ------------------------------------------------------------ grading

  /** The normal form is a fixed point: normalising again changes nothing. */
  lemma NormalizeIdempotent(s: string)
    ensures Normalize(Normalize(s)) == Normalize(s)
  {
    calc {
      Normalize(Normalize(s));
    ==
      Lower(Strip(Lower(Strip(s))));
    == { StripLowerCommute(Strip(s)); }
      Lower(Lower(Strip(Strip(s))));
    == { StripIdempotent(s); LowerIdempotent(Strip(s)); }
      Lower(Strip(s));
    }
  }

  /** The normal form is trimmed, has no upper-case letter, and is no longer
      than the text it comes from. */
  lemma NormalizeShape(s: string)
    ensures |Normalize(s)| <= |s| && Trimmed(Normalize(s))
    ensures forall i :: 0 <= i < |Normalize(s)| ==> !IsUpper(Normalize(s)[i])
  {
    LowerPreservesTrimmed(Strip(s));
  }

  /** Answers with the same stripped text are graded correct; a correct
      answer has as many characters as the stored one once both are
      stripped. */
  lemma IsCorrectStripped(answer: string, correct: string)
    ensures Strip(answer) == Strip(correct) ==> IsCorrect(answer, correct)
    ensures IsCorrect(answer, correct) ==> |Strip(answer)| == |Strip(correct)|
  {
  }

  /** Grading is an equivalence on answers: reflexive, symmetric and
      transitive. */
  lemma IsCorrectEquivalence(a: string, b: string, c: string)
    ensures IsCorrect(a, a)
    ensures IsCorrect(a, b) <==> IsCorrect(b, a)
    ensures IsCorrect(a, b) && IsCorrect(b, c) ==> IsCorrect(a, c)
  {
  }

  /** Grading an answer is the same as grading its normal form. */
  lemma IsCorrectOfNormalForm(answer: string, correct: string)
    ensures IsCorrect(Normalize(answer), correct) <==> IsCorrect(answer, correct)
    ensures IsCorrect(answer, Normalize(correct)) <==> IsCorrect(answer, correct)
  {
    NormalizeIdempotent(answer);
    NormalizeIdempotent(correct);
  }

  /** Whitespace around either the submitted or the stored answer does not
      change the verdict. */
  lemma IsCorrectIgnoresPadding(w1: string, answer: string, w2: string, correct: string)
    requires AllSpace(w1) && AllSpace(w2)
    ensures IsCorrect(w1 + answer + w2, correct) <==> IsCorrect(answer, correct)
    ensures IsCorrect(correct, w1 + answer + w2) <==> IsCorrect(correct, answer)
  {
    StripIgnoresPadding(w1, answer, w2);
  }

  const UpperLetters: string := "ABCDEFGHIJKLMNOPQRSTUVWXYZ"
  const LowerLetters: string := "abcdefghijklmnopqrstuvwxyz"

  /** Two characters are equal, or are the upper- and lower-case forms of
      the same Latin letter. */
  predicate SameLetter(x: char, y: char) {
    x == y
    || exists k :: 0 <= k < 26 && ((x == UpperLetters[k] && y == LowerLetters[k])
                                 || (x == LowerLetters[k] && y == UpperLetters[k]))
  }

  /** Two strings that differ at most in the case of their letters. */
  predicate SameUpToCase(a: string, b: string) {
    |a| == |b| && forall i :: 0 <= i < |a| ==> SameLetter(a[i], b[i])
  }

  /** Folding maps each letter of the upper-case alphabet to the letter at
      the same place in the lower-case one. */
  lemma LowerCharAlphabet(k: nat)
    requires k < 26
    ensures LowerChar(UpperLetters[k]) == LowerLetters[k]
    ensures LowerChar(LowerLetters[k]) == LowerLetters[k]
  {
  }

  lemma LowerOfSameUpToCase(a: string, b: string)
    requires SameUpToCase(a, b)
    ensures Lower(a) == Lower(b)
  {
    forall i | 0 <= i < |a| ensures LowerChar(a[i]) == LowerChar(b[i]) {
      if a[i] != b[i] {
        var k :| 0 <= k < 26 && ((a[i] == UpperLetters[k] && b[i] == LowerLetters[k])
                               || (a[i] == LowerLetters[k] && b[i] == UpperLetters[k]));
        LowerCharAlphabet(k);
      }
    }
  }

  /** Two answers that differ only in letter case get the same verdict,
      against either side. */
  lemma IsCorrectIgnoresCase(a: string, b: string, correct: string)
    requires SameUpToCase(a, b)
    ensures IsCorrect(a, correct) <==> IsCorrect(b, correct)
    ensures IsCorrect(correct, a) <==> IsCorrect(correct, b)
  {
    LowerOfSameUpToCase(a, b);
    StripLowerCommute(a);
    StripLowerCommute(b);
  }

  // ------------------------------------------------------ decimal digits

  function DigitChar(d: nat): (c: char)
    requires d < 10
    ensures '0' <= c <= '9'
  {
    ('0' as int + d) as char
  }

  /** Python's `str(n)` for a non-negative integer. */
  function Decimal(n: nat): (r: string)
    ensures |r| >= 1
    ensures forall i :: 0 <= i < |r| ==> '0' <= r[i] <= '9'
    ensures |r| > 1 ==> r[0] != '0'
    ensures r[|r| - 1] == DigitChar(n % 10)
    ensures n < 10 <==> |r| == 1
  {
    if n < 10 then [DigitChar(n)] else Decimal(n / 10) + [DigitChar(n % 10)]
  }

  /** The number a string of decimal digits denotes, most significant digit first. */
  function DigitsValue(s: string): nat
    requires forall i :: 0 <= i < |s| ==> '0' <= s[i] <= '9'
  {
    if s == [] then 0 else 10 * DigitsValue(s[..|s| - 1]) + (s[|s| - 1] as int - '0' as int)
  }

  /** Reading the rendered digits back gives the number: `int(str(n)) == n`. */
  lemma {:induction false} DecimalValue(n: nat)
    ensures DigitsValue(Decimal(n)) == n
  {
    if n >= 10 {
      var d := Decimal(n);
      assert d[..|d| - 1] == Decimal(n / 10);
      DecimalValue(n / 10);
    }
  }

  /** Distinct numbers are rendered as distinct strings. */
  lemma {:induction false} DecimalInjective(a: nat, b: nat)
    requires Decimal(a) == Decimal(b)
    ensures a == b
  {
    if a >= 10 && b >= 10 {
      var da, db := Decimal(a), Decimal(b);
      assert da[..|da| - 1] == Decimal(a / 10);
      assert db[..|db| - 1] == Decimal(b / 10);
      DecimalInjective(a / 10, b / 10);
    }
  }

}
