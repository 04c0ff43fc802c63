/**
 * Character classes and string operations the Python source relies on:
 * `str.isspace`, `str.lower`, `startswith`/`endswith`/`in`, `strip`, `split`,
 * `re.sub(r"[class]+", rep, s)` and the decimal rendering of `int`.
 */
module Text {
  import opened Seqs

  /** Python's `str.isspace()`, which is also the set `\s` matches and `strip()` removes. */
  predicate IsSpace(c: char) {
    || c == ' '
    || ('\t' <= c <= '\r')
    || ('\U{1C}' <= c <= '\U{1F}')
    || c == '\U{85}' || c == '\U{A0}' || c == '\U{1680}'
    || ('\U{2000}' <= c <= '\U{200A}')
    || c == '\U{2028}' || c == '\U{2029}' || c == '\U{202F}' || c == '\U{205F}' || c == '\U{3000}'
  }

  predicate IsAsciiLetter(c: char) {
    ('a' <= c <= 'z') || ('A' <= c <= 'Z')
  }

  predicate IsAsciiDigit(c: char) {
    '0' <= c <= '9'
  }

  /** Lower-case mapping of one character (ASCII letters only). */
  function Lower(c: char): (r: char)
    ensures !('A' <= r <= 'Z')
    ensures !IsAsciiLetter(c) ==> r == c
  {
    if 'A' <= c <= 'Z' then (c as int + 32) as char else c
  }

  /** Python's `s.lower()`, character by character. */
  function LowerStr(s: string): (r: string)
    ensures |r| == |s|
    ensures forall i :: 0 <= i < |s| ==> r[i] == Lower(s[i])
  {
    seq(|s|, i requires 0 <= i < |s| => Lower(s[i]))
  }

  predicate StartsWith(s: string, prefix: string) {
    |prefix| <= |s| && s[..|prefix|] == prefix
  }

  predicate EndsWith(s: string, suffix: string) {
    |suffix| <= |s| && s[|s| - |suffix|..] == suffix
  }

  /** `sub` occurs in `s` starting at index `i`. */
  predicate OccursAt(s: string, sub: string, i: int) {
    0 <= i && i + |sub| <= |s| && s[i..i + |sub|] == sub
  }

  /** Python's `sub in s`. */
  predicate Contains(s: string, sub: string) {
    exists i :: 0 <= i <= |s| - |sub| && OccursAt(s, sub, i)
  }

  lemma ContainsTransitive(s: string, mid: string, sub: string)
    requires Contains(s, mid) && Contains(mid, sub)
    ensures Contains(s, sub)
  {
    var i :| 0 <= i <= |s| - |mid| && OccursAt(s, mid, i);
    var j :| 0 <= j <= |mid| - |sub| && OccursAt(mid, sub, j);
    forall k | 0 <= k < |sub| ensures s[i + j + k] == sub[k] {
      assert sub[k] == mid[j + k] == s[i + j + k];
    }
    assert s[i + j..i + j + |sub|] == sub;
    assert OccursAt(s, sub, i + j);
  }

  lemma ContainsSelf(s: string)
    ensures Contains(s, s)
  {
    assert s[0..|s|] == s;
    assert OccursAt(s, s, 0);
  }

  /** Drops the leading characters that satisfy `drop`. */
  function TrimStart(s: string, drop: char -> bool): (r: string)
    ensures |r| <= |s| && r == s[|s| - |r|..]
    ensures r == [] || !drop(r[0])
    ensures forall i :: 0 <= i < |s| - |r| ==> drop(s[i])
  {
    if s != [] && drop(s[0]) then TrimStart(s[1..], drop) else s
  }

  /** Drops the trailing characters that satisfy `drop`. */
  function TrimEnd(s: string, drop: char -> bool): (r: string)
    ensures |r| <= |s| && r == s[..|r|]
    ensures r == [] || !drop(r[|r| - 1])
    ensures forall i :: |r| <= i < |s| ==> drop(s[i])
  {
    if s != [] && drop(s[|s| - 1]) then TrimEnd(s[..|s| - 1], drop) else s
  }

  /** Python's `s.strip()`. */
  function Strip(s: string): (r: string)
    ensures r == [] || (!IsSpace(r[0]) && !IsSpace(r[|r| - 1]))
    ensures forall c :: c in r ==> c in s
  {
    TrimEnd(TrimStart(s, IsSpace), IsSpace)
  }

  /** No two consecutive characters of `s` are both `c`. */
  predicate NoDoubled(s: string, c: char) {
    forall i :: 0 <= i < |s| - 1 ==> s[i] != c || s[i + 1] != c
  }

  lemma NoDoubledSlice(s: string, c: char, lo: nat, hi: nat)
    requires lo <= hi <= |s| && NoDoubled(s, c)
    ensures NoDoubled(s[lo..hi], c)
  {
    forall i | 0 <= i < hi - lo - 1 ensures s[lo..hi][i] != c || s[lo..hi][i + 1] != c {
      assert s[lo..hi][i] == s[lo + i] && s[lo..hi][i + 1] == s[lo + i + 1];
    }
  }

  /** Putting `x` in front keeps "no doubled `c`" unless both `x` and the old head are `c`. */
  lemma NoDoubledCons(x: char, u: string, c: char)
    requires NoDoubled(u, c) && (x == c ==> u == [] || u[0] != c)
    ensures NoDoubled([x] + u, c)
  {
    forall i | 0 <= i < |u| ensures ([x] + u)[i] != c || ([x] + u)[i + 1] != c {
      if i > 0 {
        assert ([x] + u)[i] == u[i - 1];
      }
    }
  }

  /** Lower-casing twice is lower-casing once. */
  lemma LowerStrIdempotent(s: string)
    ensures LowerStr(LowerStr(s)) == LowerStr(s)
  {
  }

  /** A string without upper-case letters is its own lower-casing. */
  lemma LowerStrFixesLower(s: string)
    requires forall i :: 0 <= i < |s| ==> !('A' <= s[i] <= 'Z')
    ensures LowerStr(s) == s
  {
  }

  lemma LowerStrAppend(a: string, b: string)
    ensures LowerStr(a + b) == LowerStr(a) + LowerStr(b)
  {
  }

  /**
   * Python's `re.sub(pattern + "+", [rep], s)` for a one-character class:
   * every maximal run of characters satisfying `inRun` becomes one `rep`.
   */
  function Squeeze(s: string, inRun: char -> bool, rep: char): string
    decreases |s|
  {
    if s == [] then []
    else if inRun(s[0]) then [rep] + Squeeze(TrimStart(s[1..], inRun), inRun, rep)
    else [s[0]] + Squeeze(s[1..], inRun, rep)
  }

  /** The first character of a squeeze: `rep` when the input starts with a run, else unchanged. */
  lemma SqueezeHead(s: string, inRun: char -> bool, rep: char)
    ensures (Squeeze(s, inRun, rep) == []) == (s == [])
    ensures s != [] ==> Squeeze(s, inRun, rep)[0] == if inRun(s[0]) then rep else s[0]
  {
  }

  /** The last character of a squeeze: `rep` when the input ends with a run, else unchanged. */
  lemma {:induction false} SqueezeLast(s: string, inRun: char -> bool, rep: char)
    requires s != []
    ensures var r := Squeeze(s, inRun, rep);
      r != [] && r[|r| - 1] == if inRun(s[|s| - 1]) then rep else s[|s| - 1]
    decreases |s|
  {
    if inRun(s[0]) {
      var t := TrimStart(s[1..], inRun);
      if t != [] {
        SqueezeLast(t, inRun, rep);
        assert t[|t| - 1] == s[|s| - 1];
      } else {
        assert forall i :: 0 <= i < |s| - 1 ==> inRun(s[1..][i]);
        if |s| > 1 { assert inRun(s[1..][|s| - 2]); }
      }
    } else if |s| > 1 {
      SqueezeLast(s[1..], inRun, rep);
    }
  }

  /** Every character of a squeeze is `rep` or a character of the input outside the class. */
  lemma {:induction false} SqueezeChars(s: string, inRun: char -> bool, rep: char)
    ensures forall c :: c in Squeeze(s, inRun, rep) ==> c == rep || (c in s && !inRun(c))
    decreases |s|
  {
    if s == [] {
    } else if inRun(s[0]) {
      var t := TrimStart(s[1..], inRun);
      SqueezeChars(t, inRun, rep);
      assert forall c :: c in t ==> c in s;
    } else {
      SqueezeChars(s[1..], inRun, rep);
    }
  }

  /** No two neighbouring characters of `s` both belong to the class. */
  predicate NoAdjacentIn(s: string, inClass: char -> bool) {
    forall i :: 0 <= i < |s| - 1 ==> !inClass(s[i]) || !inClass(s[i + 1])
  }

  /** When `rep` belongs to the class, no two neighbours of the result both belong to it. */
  lemma {:induction false} SqueezeNoAdjacentRuns(s: string, inRun: char -> bool, rep: char)
    requires inRun(rep)
    ensures NoAdjacentIn(Squeeze(s, inRun, rep), inRun)
    decreases |s|
  {
    if s == [] {
    } else if inRun(s[0]) {
      var t := TrimStart(s[1..], inRun);
      SqueezeNoAdjacentRuns(t, inRun, rep);
      SqueezeHead(t, inRun, rep);
    } else {
      SqueezeNoAdjacentRuns(s[1..], inRun, rep);
      var r, t := Squeeze(s, inRun, rep), Squeeze(s[1..], inRun, rep);
      assert r == [s[0]] + t;
      forall i | 0 <= i < |r| - 1 ensures !inRun(r[i]) || !inRun(r[i + 1]) {
        if i > 0 {
          assert r[i] == t[i - 1] && r[i + 1] == t[i];
        }
      }
    }
  }

  /** A string with no run to shorten is its own squeeze. */
  lemma {:induction false} SqueezeFixpoint(s: string, inRun: char -> bool, rep: char)
    requires forall i :: 0 <= i < |s| && inRun(s[i]) ==> s[i] == rep
    requires NoAdjacentIn(s, inRun)
    ensures Squeeze(s, inRun, rep) == s
    decreases |s|
  {
    if s != [] {
      assert s == [s[0]] + s[1..];
      assert NoAdjacentIn(s[1..], inRun) by {
        forall i | 0 <= i < |s[1..]| - 1 ensures !inRun(s[1..][i]) || !inRun(s[1..][i + 1]) {
          assert s[1..][i] == s[i + 1] && s[1..][i + 1] == s[i + 2];
        }
      }
      if inRun(s[0]) && |s| > 1 {
        assert !inRun(s[1..][0]);
      }
      SqueezeFixpoint(s[1..], inRun, rep);
    }
  }

  /** Dropping a leading run never removes a character outside the class. */
  lemma {:induction false} TrimStartKeepsOthers(s: string, drop: char -> bool, keep: char -> bool)
    requires forall c :: keep(c) == !drop(c)
    ensures Filter(TrimStart(s, drop), keep) == Filter(s, keep)
    decreases |s|
  {
    if s != [] && drop(s[0]) {
      TrimStartKeepsOthers(s[1..], drop, keep);
    }
  }

  /**
   * When `rep` belongs to the class, a squeeze keeps every character outside the
   * class, in its original order, and adds none.
   */
  lemma {:induction false} SqueezeKeepsOthers(s: string, inRun: char -> bool, rep: char, keep: char -> bool)
    requires inRun(rep)
    requires forall c :: keep(c) == !inRun(c)
    ensures Filter(Squeeze(s, inRun, rep), keep) == Filter(s, keep)
    decreases |s|
  {
    if s == [] {
    } else if inRun(s[0]) {
      var t := TrimStart(s[1..], inRun);
      var u := Squeeze(t, inRun, rep);
      SqueezeKeepsOthers(t, inRun, rep, keep);
      TrimStartKeepsOthers(s[1..], inRun, keep);
      assert ([rep] + u)[0] == rep && ([rep] + u)[1..] == u;
    } else {
      var u := Squeeze(s[1..], inRun, rep);
      SqueezeKeepsOthers(s[1..], inRun, rep, keep);
      assert ([s[0]] + u)[0] == s[0] && ([s[0]] + u)[1..] == u;
    }
  }

  /** A squeeze of another class keeps "no doubled `c`" when `c` is neither in the class nor `rep`. */
  lemma {:induction false} SqueezeKeepsNoDoubled(s: string, inRun: char -> bool, rep: char, c: char)
    requires !inRun(c) && rep != c && NoDoubled(s, c)
    ensures NoDoubled(Squeeze(s, inRun, rep), c)
    decreases |s|
  {
    if s == [] {
    } else if inRun(s[0]) {
      var t := TrimStart(s[1..], inRun);
      assert t == s[|s| - |t|..];
      NoDoubledSlice(s, c, |s| - |t|, |s|);
      SqueezeKeepsNoDoubled(t, inRun, rep, c);
      NoDoubledCons(rep, Squeeze(t, inRun, rep), c);
    } else {
      NoDoubledSlice(s, c, 1, |s|);
      SqueezeKeepsNoDoubled(s[1..], inRun, rep, c);
      SqueezeHead(s[1..], inRun, rep);
      NoDoubledCons(s[0], Squeeze(s[1..], inRun, rep), c);
    }
  }

  function DigitChar(d: nat): (c: char)
    requires d < 10
    ensures IsAsciiDigit(c)
  {
    ('0' as int + d) as char
  }

  /** Python's `str(n)` for a non-negative integer. */
  function NatToString(n: nat): (r: string)
    ensures r != [] && forall c :: c in r ==> IsAsciiDigit(c)
    ensures n >= 10 ==> |r| >= 2
    decreases n
  {
    if n < 10 then [DigitChar(n)] else NatToString(n / 10) + [DigitChar(n % 10)]
  }

  /** Distinct numbers have distinct decimal renderings. */
  lemma {:induction false} NatToStringInjective(a: nat, b: nat)
    requires NatToString(a) == NatToString(b)
    ensures a == b
    decreases a
  {
    var sa, sb := NatToString(a), NatToString(b);
    if a >= 10 && b >= 10 {
      assert sa[|sa| - 1] == DigitChar(a % 10) && sb[|sb| - 1] == DigitChar(b % 10);
      assert NatToString(a / 10) == sa[..|sa| - 1] == sb[..|sb| - 1] == NatToString(b / 10);
      NatToStringInjective(a / 10, b / 10);
    }
  }

  /** Python's `s.split(sep)` for a one-character separator. */
  function Split(s: string, sep: char): (parts: seq<string>)
    ensures |parts| >= 1
    ensures forall i :: 0 <= i < |parts| ==> sep !in parts[i]
    decreases |s|
  {
    if s == [] then [""]
    else
      var rest := Split(s[1..], sep);
      if s[0] == sep then [""] + rest else [[s[0]] + rest[0]] + rest[1..]
  }

  /** Python's `sep.join(parts)`. */
  function JoinWith(parts: seq<string>, sep: char): string
    requires |parts| >= 1
    decreases |parts|
  {
    if |parts| == 1 then parts[0] else parts[0] + [sep] + JoinWith(parts[1..], sep)
  }

  /** Splitting and joining with the same separator gives the input back. */
  lemma {:induction false} SplitJoinRoundTrip(s: string, sep: char)
    ensures JoinWith(Split(s, sep), sep) == s
    decreases |s|
  {
    if s != [] {
      var rest := Split(s[1..], sep);
      SplitJoinRoundTrip(s[1..], sep);
      if s[0] != sep {
        if |rest| > 1 {
          assert rest == [rest[0]] + rest[1..];
        }
      }
    }
  }
}
