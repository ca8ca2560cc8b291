/**
  The four-digit code field shared by the game page (a guess) and the home page
  (a secret code): every keystroke is cleaned to at most four ASCII digits, and the
  cleaned text is checked for repeated digits once it is complete.
 */
module CodeInput {

  /** Number of characters in a complete code. */
  const CodeLength: nat := 4

  /** The only message the validator ever reports. */
  const UniqueDigitsError: string := "All digits must be unique"

  /** The characters the `\D` pattern keeps: ASCII `0`..`9`. */
  predicate IsDigit(c: char) {
    '0' <= c <= '9'
  }

  predicate AllDigits(s: string) {
    forall i :: 0 <= i < |s| ==> IsDigit(s[i])
  }

  predicate AllDistinct(s: string) {
    forall i, j :: 0 <= i < j < |s| ==> s[i] != s[j]
  }

  /** A code that may be sent to the server: four pairwise-distinct digits. */
  predicate IsValidCode(s: string) {
    |s| == CodeLength && AllDigits(s) && AllDistinct(s)
  }

  function Min(a: nat, b: nat): nat {
    if a <= b then a else b
  }

  /** The input with every non-digit removed, order kept. */
  function Digits(s: string): (d: string)
    ensures AllDigits(d)
    ensures |d| <= |s|
    ensures AllDigits(s) ==> d == s
  {
    if s == [] then []
    else if IsDigit(s[0]) then [s[0]] + Digits(s[1..])
    else Digits(s[1..])
  }

  /** Removing non-digits distributes over concatenation: together with
      `Digits([c])` being `[c]` for a digit and `[]` otherwise, this pins
      `Digits` down as the order-preserving filter of the digits. */
  lemma {:induction false} DigitsAppend(a: string, b: string)
    ensures Digits(a + b) == Digits(a) + Digits(b)
  {
    if a == [] {
      assert a + b == b;
    } else {
      assert (a + b)[0] == a[0];
      assert (a + b)[1..] == a[1..] + b;
      DigitsAppend(a[1..], b);
    }
  }

  /** A single character survives the filter exactly when it is a digit. */
  lemma DigitsSingle(c: char)
    ensures Digits([c]) == if IsDigit(c) then [c] else []
  {
  }

  /** The filter loses nothing exactly when every character is a digit. */
  lemma {:induction false} DigitsKeepsAll(s: string)
    ensures |Digits(s)| == |s| <==> AllDigits(s)
  {
    if s != [] {
      DigitsKeepsAll(s[1..]);
      if AllDigits(s) {
        assert AllDigits(s[1..]) by {
          forall i | 0 <= i < |s| - 1
            ensures IsDigit(s[1..][i])
          {
            assert s[1..][i] == s[i + 1];
          }
        }
      }
      if |Digits(s)| == |s| {
        assert IsDigit(s[0]);
        forall i | 0 <= i < |s|
          ensures IsDigit(s[i])
        {
          if i > 0 {
            assert s[i] == s[1..][i - 1];
          }
        }
      }
    }
  }

  /** The cleaning done on every change of the field: strip non-digits, keep the
      first four. */
  function Normalize(raw: string): (r: string)
    ensures AllDigits(r)
    ensures |r| <= CodeLength
    ensures |r| == Min(CodeLength, |Digits(raw)|)
    ensures r <= Digits(raw)
  {
    var d := Digits(raw);
    if |d| <= CodeLength then d else d[..CodeLength]
  }

  /** Cleaning an already cleaned value changes nothing, and the cleaned values are
      exactly the digit strings of length at most four. */
  lemma NormalizeIdempotent(raw: string)
    ensures Normalize(Normalize(raw)) == Normalize(raw)
    ensures Normalize(raw) == raw <==> AllDigits(raw) && |raw| <= CodeLength
  {
  }

  /** Typing more text after the cleaned value and cleaning again gives the same
      field as cleaning everything that was typed in one go. */
  lemma NormalizeIncremental(typed: string, more: string)
    ensures Normalize(Normalize(typed) + more) == Normalize(typed + more)
  {
    var n := Normalize(typed);
    DigitsAppend(n, more);
    DigitsAppend(typed, more);
    var d := Digits(typed);
    assert Digits(n + more) == n + Digits(more);
    assert Digits(typed + more) == d + Digits(more);
    if |d| > CodeLength {
      assert (n + Digits(more))[..CodeLength] == n;
      assert (d + Digits(more))[..CodeLength] == d[..CodeLength];
    }
  }

  /** The set of characters of `s`: what `new Set(code.split(""))` holds. */
  function CharSet(s: string): set<char> {
    set i | 0 <= i < |s| :: s[i]
  }

  lemma CharSetCons(s: string)
    requires |s| > 0
    ensures CharSet(s) == {s[0]} + CharSet(s[1..])
  {
  }

  /** A string has as many distinct characters as it has characters exactly when
      no character repeats. */
  lemma {:induction false} CharSetSize(s: string)
    ensures |CharSet(s)| <= |s|
    ensures |CharSet(s)| == |s| <==> AllDistinct(s)
  {
    if s == [] {
      assert CharSet(s) == {};
    } else {
      var t := s[1..];
      CharSetCons(s);
      CharSetSize(t);
      if s[0] in CharSet(t) {
        var i :| 0 <= i < |t| && t[i] == s[0];
        assert s[0] == s[i + 1];
        assert !AllDistinct(s);
      } else {
        assert |CharSet(s)| == |CharSet(t)| + 1;
        forall j | 0 < j < |s|
          ensures s[0] != s[j]
        {
          assert t[j - 1] == s[j];
        }
        if AllDistinct(t) {
          forall i, j | 0 <= i < j < |s|
            ensures s[i] != s[j]
          {
            if i > 0 {
              assert s[i] == t[i - 1] && s[j] == t[j - 1];
            }
          }
        }
        if AllDistinct(s) {
          forall i, j | 0 <= i < j < |t|
            ensures t[i] != t[j]
          {
            assert t[i] == s[i + 1] && t[j] == s[j + 1];
          }
        }
      }
    }
  }

  /** The validator of both pages. It stays silent while the value is shorter than a
      full code and flags a complete code whose digits repeat. The cleaned field is
      never longer than four characters; on a longer string the validator, as
      written, flags anything without exactly four distinct characters. */
  function Validate(code: string): (err: string)
    ensures err == "" || err == UniqueDigitsError
    ensures |code| < CodeLength ==> err == ""
    ensures |code| == CodeLength ==> (err == UniqueDigitsError <==> !AllDistinct(code))
    ensures |code| > CodeLength && AllDistinct(code) ==> err == UniqueDigitsError
  {
    CharSetSize(code);
    if |code| == 0 then ""
    else if |code| < CodeLength then ""
    else if |CharSet(code)| != CodeLength then UniqueDigitsError
    else ""
  }

  /** The text of the input box and the message shown under it. */
  datatype CodeField = CodeField(value: string, error: string)

  /** The field as first shown, and as every reset leaves it. */
  const EmptyField := CodeField("", "")

  /** A field whose value has been cleaned and whose message belongs to that value;
      every change handler leaves the field in this shape. */
  predicate Consistent(f: CodeField) {
    AllDigits(f.value) && |f.value| <= CodeLength && f.error == Validate(f.value)
  }

  /** The change handler of the box: clean the new text, then validate the cleaned
      value. */
  function Edit(raw: string): (f: CodeField)
    ensures Consistent(f)
    ensures f.value == Normalize(raw)
  {
    var cleaned := Normalize(raw);
    CodeField(cleaned, Validate(cleaned))
  }

  /** `isGuessValid` / `isCodeValid`: full length and no message. */
  predicate Submittable(f: CodeField) {
    |f.value| == CodeLength && f.error == ""
  }

  /** On a consistent field, the submit condition holds exactly when the value is a
      valid code; this is the only gate the pages put before a request. */
  lemma SubmittableIffValidCode(f: CodeField)
    ensures Consistent(f) ==> (Submittable(f) <==> IsValidCode(f.value))
  {
  }

  /** After a change, the field can be submitted exactly when the first four digits
      of what was typed exist and are pairwise distinct. */
  lemma EditSubmittable(raw: string)
    ensures Submittable(Edit(raw)) <==> |Digits(raw)| >= CodeLength && AllDistinct(Digits(raw)[..CodeLength])
  {
  }

  /** The box's `maxLength` of four means the handler only ever receives at most
      four characters; on such text cleaning only drops the non-digits. */
  lemma CleanWithinMaxLength(raw: string)
    requires |raw| <= CodeLength
    ensures Normalize(raw) == Digits(raw)
  {
  }

  /** On the at most four characters the box lets through, the field becomes
      submittable exactly when the text itself is four distinct digits. */
  lemma EditWithinMaxLength(raw: string)
    requires |raw| <= CodeLength
    ensures Submittable(Edit(raw)) <==> IsValidCode(raw)
  {
    var d := Digits(raw);
    assert Normalize(raw) == d;
    DigitsKeepsAll(raw);
    if |d| == CodeLength {
      assert d == raw;
    }
    assert Edit(raw) == CodeField(d, Validate(d));
  }

  lemma EmptyFieldConsistent()
    ensures Consistent(EmptyField) && !Submittable(EmptyField)
  {
  }
}
