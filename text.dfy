/**
 * Text operations the library relies on: Foundation's
 * `components(separatedBy:)`, `joined(separator:)`, parsing of unsigned
 * integers in a radix (`UInt8(_:)`, `UInt16(_:radix:)`) and rendering of
 * naturals in a radix with upper-case digits (`String(_:radix:uppercase:)`,
 * `String(format: "%02X")`, `String(format: "%04O")`).
 */
module Text {
  import opened Wrappers
  import opened Collections

  /** `parts.joined(separator: sep)`. */
  function Join(parts: seq<string>, sep: string): string
  {
    if |parts| == 0 then ""
    else if |parts| == 1 then parts[0]
    else parts[0] + sep + Join(parts[1..], sep)
  }

  /** `s.components(separatedBy: sep)`: cuts `s` at every occurrence of `sep`,
      scanning left to right and taking occurrences that do not overlap.
      Empty components are kept, so there is always at least one. */
  function Split(s: string, sep: string): (parts: seq<string>)
    requires |sep| > 0
    ensures |parts| >= 1
    decreases |s|
  {
    if |s| < |sep| then [s]
    else if s[..|sep|] == sep then [""] + Split(s[|sep|..], sep)
    else
      var rest := Split(s[1..], sep);
      [[s[0]] + rest[0]] + rest[1..]
  }

  /** Joining the components with the separator gives back the string. */
  lemma {:induction false} JoinSplit(s: string, sep: string)
    requires |sep| > 0
    ensures Join(Split(s, sep), sep) == s
    decreases |s|
  {
    if |s| < |sep| {
    } else if s[..|sep|] == sep {
      JoinSplit(s[|sep|..], sep);
      JoinEmptyFirst(Split(s[|sep|..], sep), sep);
      assert s == s[..|sep|] + s[|sep|..];
    } else {
      JoinSplit(s[1..], sep);
      JoinPrepend(s[0], Split(s[1..], sep), sep);
      assert s == [s[0]] + s[1..];
    }
  }

  /** A separator at the start cuts off an empty first component. */
  lemma SplitAtSeparator(s: string, sep: string)
    requires |sep| > 0 && |s| >= |sep| && s[..|sep|] == sep
    ensures Split(s, sep) == [""] + Split(s[|sep|..], sep)
  {
  }

  /** An empty first component contributes only its separator. */
  lemma JoinEmptyFirst(rest: seq<string>, sep: string)
    requires |rest| >= 1
    ensures Join([""] + rest, sep) == sep + Join(rest, sep)
  {
    var parts := [""] + rest;
    assert parts[0] == "" && parts[1..] == rest;
    assert "" + sep == sep;
  }

  /** Prepending a character to the first component prepends it to the join. */
  lemma JoinPrepend(c: char, parts: seq<string>, sep: string)
    requires |parts| >= 1
    ensures Join([[c] + parts[0]] + parts[1..], sep) == [c] + Join(parts, sep)
  {
    var q := [[c] + parts[0]] + parts[1..];
    if |parts| > 1 {
      assert q[1..] == parts[1..];
    }
  }

  /** Joining two non-empty lists puts one separator between their joins. */
  lemma {:induction false} JoinAppend(a: seq<string>, b: seq<string>, sep: string)
    requires |a| >= 1 && |b| >= 1
    ensures Join(a + b, sep) == Join(a, sep) + sep + Join(b, sep)
    decreases |a|
  {
    if |a| == 1 {
      assert (a + b)[1..] == b;
    } else {
      assert (a + b)[1..] == a[1..] + b;
      JoinAppend(a[1..], b, sep);
    }
  }

  /** `sep` occurs in `s` starting at position `i`. */
  predicate OccursAt(s: string, sep: string, i: nat)
  {
    i + |sep| <= |s| && s[i..i + |sep|] == sep
  }

  /** A string in which the separator does not occur is its own single component. */
  lemma {:induction false} SplitAbsent(s: string, sep: string)
    requires |sep| > 0
    requires forall i: nat :: !OccursAt(s, sep, i)
    ensures Split(s, sep) == [s]
    decreases |s|
  {
    if |s| >= |sep| {
      assert !OccursAt(s, sep, 0);
      var t := s[1..];
      forall i: nat ensures !OccursAt(t, sep, i) {
        assert !OccursAt(s, sep, i + 1);
        if i + |sep| <= |t| {
          assert t[i..i + |sep|] == s[i + 1..i + 1 + |sep|];
        }
      }
      SplitAbsent(t, sep);
      assert [s[0]] + t == s;
    }
  }

  /** No component of a split on one character contains that character. */
  lemma {:induction false} SplitFree(s: string, c: char)
    ensures forall k :: 0 <= k < |Split(s, [c])| ==> c !in Split(s, [c])[k]
    decreases |s|
  {
    if |s| >= 1 {
      SplitFree(s[1..], c);
      if s[0] != c {
        assert s[..1] != [c];
        var rest := Split(s[1..], [c]);
        assert Split(s, [c]) == [[s[0]] + rest[0]] + rest[1..];
        assert forall k :: 1 <= k < |Split(s, [c])| ==> Split(s, [c])[k] == rest[k];
      } else {
        assert s[..1] == [c];
      }
    }
  }

  /** Splitting components that do not contain the separator character, once
      joined, recovers them: split and join are inverse on such lists. */
  lemma {:induction false} SplitJoin(parts: seq<string>, c: char)
    requires |parts| >= 1
    requires forall k :: 0 <= k < |parts| ==> c !in parts[k]
    ensures Split(Join(parts, [c]), [c]) == parts
    decreases |parts|, |parts[0]|
  {
    var s := Join(parts, [c]);
    if |parts[0]| == 0 {
      if |parts| > 1 {
        assert s == [c] + Join(parts[1..], [c]);
        assert s[..1] == [c];
        SplitJoin(parts[1..], c);
        assert s[1..] == Join(parts[1..], [c]);
      }
    } else {
      var p0 := parts[0];
      var tail := [p0[1..]] + parts[1..];
      assert s == [p0[0]] + Join(tail, [c]) by {
        if |parts| > 1 {
          assert Join(tail, [c]) == p0[1..] + [c] + Join(parts[1..], [c]);
          assert p0 == [p0[0]] + p0[1..];
        } else {
          assert p0 == [p0[0]] + p0[1..];
        }
      }
      assert p0[0] != c by { assert p0[0] in p0; }
      assert s[..1] != [c];
      assert s[1..] == Join(tail, [c]);
      assert forall k :: 0 <= k < |tail| ==> c !in tail[k] by {
        assert forall x :: x in p0[1..] ==> x in p0;
      }
      SplitJoin(tail, c);
      assert [p0[0]] + p0[1..] == p0;
      assert |s| >= 1;
    }
  }

  /** The number of components of a split on one character is one more than the
      number of occurrences of that character. */
  function Count(s: string, c: char): nat
  {
    if |s| == 0 then 0 else (if s[0] == c then 1 else 0) + Count(s[1..], c)
  }

  lemma {:induction false} SplitCount(s: string, c: char)
    ensures |Split(s, [c])| == Count(s, c) + 1
    decreases |s|
  {
    if |s| >= 1 {
      SplitCount(s[1..], c);
      if s[0] == c { assert s[..1] == [c]; } else { assert s[..1] != [c]; }
    }
  }

  // ----- digits -----

  /** The value of `c` as a digit of `radix`, accepting either case for the
      letters, as Swift's integer parsing does. */
  function DigitValue(c: char, radix: nat): (d: Option<nat>)
    ensures d.Some? ==> d.value < radix
  {
    var v :=
      if '0' <= c <= '9' then c as int - '0' as int
      else if 'A' <= c <= 'Z' then c as int - 'A' as int + 10
      else if 'a' <= c <= 'z' then c as int - 'a' as int + 10
      else radix;
    if v < radix then Some(v) else None
  }

  /** A non-empty run of digits of `radix`. */
  predicate IsDigits(s: string, radix: nat)
  {
    |s| > 0 && forall i :: 0 <= i < |s| ==> DigitValue(s[i], radix).Some?
  }

  /** The value of a run of digits, most significant first. It is only read
      for runs of digits; a character that is not a digit would count as 0. */
  function DigitsValue(s: string, radix: nat): nat
  {
    if |s| == 0 then 0
    else
      var d := match DigitValue(s[|s| - 1], radix) case Some(v) => v case None => 0;
      DigitsValue(s[..|s| - 1], radix) * radix + d
  }

  /** A character that is not a digit does not occur in a run of digits. */
  lemma NotInDigits(s: string, radix: nat, c: char)
    requires forall i :: 0 <= i < |s| ==> DigitValue(s[i], radix).Some?
    requires DigitValue(c, radix).None?
    ensures c !in s
  {
    assert forall i :: 0 <= i < |s| ==> s[i] != c;
  }

  /** Parses `s` as an unsigned integer in `radix` that is at most `max`.
      This models Swift's `FixedWidthInteger.init?(_:radix:)` as "a non-empty
      run of digits whose value is in range"; the optional leading `+`/`-`
      sign that Swift's parser also accepts is not modelled. */
  function ParseUnsigned(s: string, radix: nat, max: nat): (r: Option<nat>)
    ensures r.Some? ==> r.value <= max
  {
    if IsDigits(s, radix) && DigitsValue(s, radix) <= max then Some(DigitsValue(s, radix)) else None
  }

  const DigitChars: string := "0123456789ABCDEF"

  /** Renders `n` in `radix` (2..16) with upper-case digits and no leading zeros. */
  function Digits(n: nat, radix: nat): (s: string)
    requires 2 <= radix <= 16
    ensures |s| >= 1
    decreases n
  {
    if n < radix then [DigitChars[n]]
    else
      DivStep(n, radix);
      Digits(n / radix, radix) + [DigitChars[n % radix]]
  }

  /** One step of the rendering: the last digit is the remainder. */
  lemma DigitsStep(n: nat, radix: nat)
    requires 2 <= radix <= 16 && radix <= n
    ensures Digits(n, radix) == Digits(n / radix, radix) + [DigitChars[n % radix]]
  {
  }

  /** Euclidean division by a radix, kept apart so that the nonlinear facts are proved once. */
  lemma DivStep(n: nat, radix: nat)
    requires 2 <= radix
    ensures (n / radix) * radix + n % radix == n && n % radix < radix
    ensures radix <= n ==> 0 < n / radix < n
  {
  }

  lemma DigitCharValue(d: nat, radix: nat)
    requires d < radix <= 16
    ensures DigitValue(DigitChars[d], radix) == Some(d)
  {
  }

  /** The rendered digits parse back to the number: rendering and parsing are inverse. */
  lemma {:induction false} DigitsRoundTrip(n: nat, radix: nat)
    requires 2 <= radix <= 16
    ensures IsDigits(Digits(n, radix), radix)
    ensures DigitsValue(Digits(n, radix), radix) == n
    decreases n
  {
    var s := Digits(n, radix);
    if n < radix {
      DigitCharValue(n, radix);
      assert s[..|s| - 1] == [];
    } else {
      DivStep(n, radix);
      DigitsRoundTrip(n / radix, radix);
      DigitCharValue(n % radix, radix);
      var p := Digits(n / radix, radix);
      assert s[..|s| - 1] == p;
      assert forall i :: 0 <= i < |s| ==> DigitValue(s[i], radix).Some? by {
        forall i | 0 <= i < |s| ensures DigitValue(s[i], radix).Some? {
          if i < |p| { assert s[i] == p[i]; }
        }
      }
    }
  }

  /** Only zero is rendered with a leading zero digit. */
  lemma {:induction false} DigitsCanonical(n: nat, radix: nat)
    requires 2 <= radix <= 16
    ensures Digits(n, radix)[0] == '0' <==> n == 0
    decreases n
  {
    if n >= radix {
      DivStep(n, radix);
      DigitsCanonical(n / radix, radix);
    }
  }

  /** Left-pads `s` with `'0'` to at least `width` characters (the `%0wX` / `%0wO` conversions). */
  function PadZeros(s: string, width: nat): (r: string)
    ensures |r| == if |s| < width then width else |s|
    ensures r[|r| - |s|..] == s
    ensures forall i :: 0 <= i < |r| - |s| ==> r[i] == '0'
  {
    if |s| < width then Repeat('0', width - |s|) + s else s
  }

  /** Leading zeros do not change the value of a run of digits. */
  lemma {:induction false} LeadingZerosValue(s: string, k: nat, radix: nat)
    requires 2 <= radix
    requires forall i :: 0 <= i < |s| ==> DigitValue(s[i], radix).Some?
    ensures forall i :: 0 <= i < |Repeat('0', k) + s| ==> DigitValue((Repeat('0', k) + s)[i], radix).Some?
    ensures DigitsValue(Repeat('0', k) + s, radix) == DigitsValue(s, radix)
    decreases |s| + k
  {
    var z := Repeat('0', k);
    if |s| == 0 {
      if k > 0 {
        assert (z + s)[..k - 1] == Repeat('0', k - 1) + s;
        LeadingZerosValue(s, k - 1, radix);
      }
    } else {
      var init := s[..|s| - 1];
      LeadingZerosValue(init, k, radix);
      assert (z + s)[..|z + s| - 1] == z + init;
    }
  }
}
