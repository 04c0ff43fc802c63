/**
 * The pure pieces of the command-line front end (main.py): reading the folder
 * name, the keyword list and the worker count the user typed.
 *
 * Every answer arrives already stripped of surrounding whitespace, as `input()
 * .strip()` leaves it. The prompting loops themselves are not modelled: a
 * rejected answer is `None` here, where the program asks again.
 */
module Cli {
  import opened Wrappers
  import opened Text
  import opened Seqs

  // ----- Folder name -----

  const DefaultFolder := "auto_generated"

  predicate IsAsciiAlnum(c: char) {
    IsAsciiLetter(c) || IsAsciiDigit(c)
  }

  /** `str.isalnum()`: at least one character, and all of them letters or digits. */
  predicate IsAlnum(s: string) {
    s != [] && forall i :: 0 <= i < |s| ==> IsAsciiAlnum(s[i])
  }

  /** `name.replace('_', '').replace('-', '')`. */
  function WithoutSeparators(name: string): (r: string)
    ensures forall c :: c in r <==> c in name && c != '_' && c != '-'
  {
    Filter(name, c => c != '_' && c != '-')
  }

  /**
   * The folder-name answer: the default for an empty answer, the answer itself
   * when it is letters and digits once `_` and `-` are removed, else rejected.
   */
  function AcceptFolderName(answer: string): Option<string> {
    if answer == [] then Some(DefaultFolder)
    else if IsAlnum(WithoutSeparators(answer)) then Some(answer)
    else None
  }

  /**
   * An accepted folder name is the default or the answer itself, and made of
   * letters, digits, `_` and `-` only, with at least one letter or digit; every
   * non-empty answer of that form is accepted.
   */
  lemma AcceptFolderNameSpec(answer: string)
    ensures answer == [] ==> AcceptFolderName(answer) == Some(DefaultFolder)
    ensures answer != [] ==>
      (AcceptFolderName(answer).Some? <==>
        (forall c :: c in answer ==> IsAsciiAlnum(c) || c == '_' || c == '-')
        && exists c :: c in answer && IsAsciiAlnum(c))
    ensures AcceptFolderName(answer).Some? && answer != [] ==> AcceptFolderName(answer) == Some(answer)
  {
    var r := WithoutSeparators(answer);
    if answer != [] {
      if (forall c :: c in answer ==> IsAsciiAlnum(c) || c == '_' || c == '-')
         && exists c :: c in answer && IsAsciiAlnum(c) {
        var c :| c in answer && IsAsciiAlnum(c);
        assert c in r;
        forall i | 0 <= i < |r| ensures IsAsciiAlnum(r[i]) {
          assert r[i] in r;
        }
      }
      if IsAlnum(r) {
        assert r[0] in r;
        forall c | c in answer ensures IsAsciiAlnum(c) || c == '_' || c == '-' {
          if c != '_' && c != '-' {
            assert c in r;
            var i :| 0 <= i < |r| && r[i] == c;
          }
        }
      }
    }
  }

  // ----- Custom keywords -----

  /** `[kw.strip() for kw in pieces]`. */
  function StripAll(pieces: seq<string>): (r: seq<string>)
    ensures |r| == |pieces| && forall i :: 0 <= i < |r| ==> r[i] == Strip(pieces[i])
  {
    seq(|pieces|, i requires 0 <= i < |pieces| => Strip(pieces[i]))
  }

  predicate NonBlank(kw: string) {
    kw != []
  }

  /** `[kw.strip() for kw in answer.split(',') if kw.strip()]`. */
  function ParseKeywords(answer: string): seq<string> {
    Filter(StripAll(Split(answer, ',')), NonBlank)
  }

  /**
   * The keywords are the comma-separated pieces, stripped, that are not blank, in
   * the order they were typed: each is non-empty, has no comma and no whitespace
   * at either end.
   */
  lemma ParseKeywordsSpec(answer: string)
    ensures forall kw :: kw in ParseKeywords(answer) <==> kw != [] && kw in StripAll(Split(answer, ','))
    ensures IsSubsequence(ParseKeywords(answer), StripAll(Split(answer, ',')))
    ensures forall kw :: kw in ParseKeywords(answer) ==>
      kw != [] && ',' !in kw && !IsSpace(kw[0]) && !IsSpace(kw[|kw| - 1])
  {
    var pieces := Split(answer, ',');
    var stripped := StripAll(pieces);
    FilterIsSubsequence(stripped, NonBlank);
    forall kw | kw in ParseKeywords(answer) ensures ',' !in kw {
      var i :| 0 <= i < |stripped| && stripped[i] == kw;
      assert ',' !in pieces[i];
    }
  }

  // ----- Worker count -----

  /** The value of a decimal digit. */
  function DigitValue(c: char): (d: nat)
    requires IsAsciiDigit(c)
    ensures d < 10 && DigitChar(d) == c
  {
    c as int - '0' as int
  }

  /** The value of a run of decimal digits. */
  function DigitsValue(digits: string): nat
    requires forall i :: 0 <= i < |digits| ==> IsAsciiDigit(digits[i])
    decreases |digits|
  {
    if digits == [] then 0
    else DigitsValue(digits[..|digits| - 1]) * 10 + DigitValue(digits[|digits| - 1])
  }

  predicate AllDigits(s: string) {
    s != [] && forall i :: 0 <= i < |s| ==> IsAsciiDigit(s[i])
  }

  /** `int(s)` on a stripped answer: an optional sign and decimal digits; `None` where it raises `ValueError`. */
  function ParseInt(s: string): Option<int> {
    if s != [] && (s[0] == '+' || s[0] == '-') && AllDigits(s[1..]) then
      var magnitude: int := DigitsValue(s[1..]);
      Some(if s[0] == '-' then -magnitude else magnitude)
    else if AllDigits(s) then Some(DigitsValue(s))
    else None
  }

  /** `max(1, min(10, n))`. */
  function Clamp(n: int): int {
    if n < 1 then 1 else if n > 10 then 10 else n
  }

  /** The worker count: 5 for a blank or non-numeric answer, otherwise clamped to 1..10. */
  function MaxWorkers(answer: string): (r: int)
    ensures 1 <= r <= 10
  {
    if answer == [] then 5
    else
      var n := ParseInt(answer);
      if n.None? then 5 else Clamp(n.value)
  }

  /** Reading a number back from its decimal rendering gives the number. */
  lemma {:induction false} DigitsValueOfNatToString(n: nat)
    ensures AllDigits(NatToString(n))
    ensures DigitsValue(NatToString(n)) == n
    decreases n
  {
    var s := NatToString(n);
    forall i | 0 <= i < |s| ensures IsAsciiDigit(s[i]) {
      assert s[i] in s;
    }
    if n >= 10 {
      DigitsValueOfNatToString(n / 10);
      assert s[..|s| - 1] == NatToString(n / 10);
    }
  }

  /** `int()` reads back `str(n)` and `str(-n)`. */
  lemma ParseIntRoundTrip(n: nat)
    ensures ParseInt(NatToString(n)) == Some(n)
    ensures ParseInt("-" + NatToString(n)) == Some(-(n as int))
  {
    DigitsValueOfNatToString(n);
    var s := NatToString(n);
    assert s[0] in s;
    assert ("-" + s)[1..] == s;
  }

  /**
   * A number typed as the worker count is used when it is between 1 and 10;
   * below that the count is 1, above it 10.
   */
  lemma MaxWorkersOfNumber(n: nat)
    ensures MaxWorkers(NatToString(n)) == if n < 1 then 1 else if n > 10 then 10 else n
    ensures MaxWorkers("-" + NatToString(n)) == 1
  {
    ParseIntRoundTrip(n);
  }

  /** An answer that is not a number gives the default count. */
  lemma MaxWorkersNotNumber(answer: string)
    requires exists i :: 0 <= i < |answer| && !IsAsciiDigit(answer[i]) && answer[i] != '+' && answer[i] != '-'
    ensures MaxWorkers(answer) == 5
  {
    var i :| 0 <= i < |answer| && !IsAsciiDigit(answer[i]) && answer[i] != '+' && answer[i] != '-';
    if i > 0 {
      assert answer[1..][i - 1] == answer[i];
    }
  }
}
