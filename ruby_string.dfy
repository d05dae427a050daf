/**
 * The three pieces of Ruby's String and Array behaviour that the projection
 * relies on: String#strip, Array#join(' ') and String#to_i (decimal only).
 */
module RubyString {

  // ---------------------------------------------------------------------
  // String#strip
  // ---------------------------------------------------------------------

  /** The characters String#strip removes: NUL, tab, line feed, vertical tab, form feed, carriage return, space. */
  predicate IsStripSpace(c: char) {
    c == '\0' || c == '\t' || c == '\n' || c == '\U{B}' || c == '\U{C}' || c == '\r' || c == ' '
  }

  predicate AllStripSpace(s: string) {
    forall i :: 0 <= i < |s| ==> IsStripSpace(s[i])
  }

  /** Neither end of s is a strip character. */
  predicate Trimmed(s: string) {
    s == "" || (!IsStripSpace(s[0]) && !IsStripSpace(s[|s| - 1]))
  }

  /** How many strip characters String#lstrip removes from the front of s. */
  function StripStart(s: string): (lo: nat)
    ensures lo <= |s|
    ensures forall i :: 0 <= i < lo ==> IsStripSpace(s[i])
    ensures lo == |s| || !IsStripSpace(s[lo])
  {
    if |s| > 0 && IsStripSpace(s[0]) then
      var n := StripStart(s[1..]);
      assert forall i :: 1 <= i < n + 1 ==> s[i] == s[1..][i - 1];
      n + 1
    else 0
  }

  /** Where String#rstrip cuts s, scanning back from e but not past lo. */
  function StripEnd(s: string, lo: nat, e: nat): (hi: nat)
    requires lo <= e <= |s|
    ensures lo <= hi <= e
    ensures forall i :: hi <= i < e ==> IsStripSpace(s[i])
    ensures hi == lo || !IsStripSpace(s[hi - 1])
    decreases e
  {
    if e > lo && IsStripSpace(s[e - 1]) then StripEnd(s, lo, e - 1) else e
  }

  /**
   * String#strip: String#lstrip, then String#rstrip; the result is the slice
   * of s between the leading and the trailing run of strip characters.
   */
  function Strip(s: string): (r: string)
    ensures |r| <= |s|
    ensures Trimmed(r)
  {
    var lo := StripStart(s);
    var hi := StripEnd(s, lo, |s|);
    assert hi > lo ==> s[lo..hi][0] == s[lo] && s[lo..hi][hi - lo - 1] == s[hi - 1];
    s[lo..hi]
  }

  /** Stripping leaves nothing exactly when the string consists only of strip characters. */
  lemma StripEmptyIff(s: string)
    ensures Strip(s) == "" <==> AllStripSpace(s)
  {
    var lo := StripStart(s);
    var hi := StripEnd(s, lo, |s|);
    if hi == lo {
      forall i | 0 <= i < |s| ensures IsStripSpace(s[i]) {
        assert i < lo || hi <= i;
      }
    } else {
      assert !IsStripSpace(s[lo]);
    }
  }

  /** The left cut of a padded string is the end of its padding. */
  lemma {:induction false} StripStartOfPadded(a: string, t: string)
    requires AllStripSpace(a)
    requires t == "" || !IsStripSpace(t[0])
    ensures StripStart(a + t) == |a|
  {
    if a != "" {
      assert (a + t)[1..] == a[1..] + t;
      StripStartOfPadded(a[1..], t);
    } else {
      assert a + t == t;
    }
  }

  /** The right cut of a padded string, scanning back from e, is where its trailing padding begins. */
  lemma {:induction false} StripEndOfPadded(s: string, lo: nat, m: nat, e: nat)
    requires lo <= m <= e <= |s|
    requires forall i :: m <= i < e ==> IsStripSpace(s[i])
    requires m == lo || !IsStripSpace(s[m - 1])
    ensures StripEnd(s, lo, e) == m
    decreases e
  {
    if e > m {
      StripEndOfPadded(s, lo, m, e - 1);
    }
  }

  /** Strip removes exactly the outer padding: a trimmed text between two runs of strip characters is what remains. */
  lemma StripOfPadded(a: string, t: string, b: string)
    requires AllStripSpace(a) && AllStripSpace(b) && Trimmed(t)
    ensures Strip(a + t + b) == t
  {
    var s := a + t + b;
    assert s == a + (t + b);
    if t == "" {
      assert s == a + b;
      assert AllStripSpace(s) by {
        forall i | 0 <= i < |s| ensures IsStripSpace(s[i]) {
          if i < |a| { assert s[i] == a[i]; } else { assert s[i] == b[i - |a|]; }
        }
      }
      StripEmptyIff(s);
    } else {
      assert (t + b)[0] == t[0];
      StripStartOfPadded(a, t + b);
      forall i | |a| + |t| <= i < |s| ensures IsStripSpace(s[i]) {
        assert s[i] == b[i - |a| - |t|];
      }
      assert s[|a| + |t| - 1] == t[|t| - 1];
      StripEndOfPadded(s, |a|, |a| + |t|, |s|);
      assert s[|a|..|a| + |t|] == t;
    }
  }

  /** Strip leaves an already trimmed string unchanged; hence it is idempotent. */
  lemma StripOfTrimmed(s: string)
    requires Trimmed(s)
    ensures Strip(s) == s
  {
    if s != "" {
      assert StripStart(s) == 0;
      assert StripEnd(s, 0, |s|) == |s|;
    }
  }

  lemma StripIdempotent(s: string)
    ensures Strip(Strip(s)) == Strip(s)
  {
    StripOfTrimmed(Strip(s));
  }

  // ---------------------------------------------------------------------
  // Array#join(' ')
  // ---------------------------------------------------------------------

  /** Total length of the parts. */
  function TotalLength(parts: seq<string>): nat {
    if parts == [] then 0 else |parts[0]| + TotalLength(parts[1..])
  }

  /** Array#join(' '): the parts in order, one space between neighbours. */
  function JoinSpace(parts: seq<string>): (r: string)
    ensures parts == [] ==> r == ""
    ensures |parts| == 1 ==> r == parts[0]
    ensures parts != [] ==> |r| == TotalLength(parts) + |parts| - 1
  {
    if |parts| == 0 then ""
    else if |parts| == 1 then parts[0]
    else parts[0] + " " + JoinSpace(parts[1..])
  }

  /** Joining keeps the parts in order: one more part is added after a single space. */
  lemma {:induction false} JoinSpaceSnoc(parts: seq<string>, s: string)
    requires parts != []
    ensures JoinSpace(parts + [s]) == JoinSpace(parts) + " " + s
  {
    var ps := parts + [s];
    assert ps[0] == parts[0] && ps[1..] == parts[1..] + [s];
    if |parts| == 1 {
      assert ps[1..] == [s];
    } else {
      JoinSpaceSnoc(parts[1..], s);
    }
  }

  /** Three parts joined: each neighbour pair one space apart. */
  lemma JoinSpaceOfThree(x: string, y: string, z: string)
    ensures JoinSpace([x, y, z]) == x + " " + y + " " + z
  {
    JoinSpaceSnoc([x], y);
    assert [x] + [y] == [x, y];
    JoinSpaceSnoc([x, y], z);
    assert [x, y] + [z] == [x, y, z];
  }

  /** Three parts, padding before the first and after the last, joined then stripped: the padding goes, the rest stays. */
  lemma StripOfPaddedJoin(a: string, p: string, v: string, e: string, b: string)
    requires AllStripSpace(a) && AllStripSpace(b)
    requires p != "" && !IsStripSpace(p[0]) && e != "" && !IsStripSpace(e[|e| - 1])
    ensures Strip(JoinSpace([a + p, v, e + b])) == p + " " + v + " " + e
  {
    JoinSpaceOfThree(a + p, v, e + b);
    var t := p + " " + v + " " + e;
    assert (a + p) + " " + v + " " + (e + b) == a + t + b;
    assert t[0] == p[0] && t[|t| - 1] == e[|e| - 1];
    StripOfPadded(a, t, b);
  }

  /** The joined string is all strip characters exactly when every part is. */
  lemma {:induction false} JoinSpaceAllStripSpace(parts: seq<string>)
    ensures AllStripSpace(JoinSpace(parts)) <==> forall k :: 0 <= k < |parts| ==> AllStripSpace(parts[k])
  {
    if |parts| > 1 {
      JoinSpaceAllStripSpace(parts[1..]);
      var j := JoinSpace(parts);
      var tail := JoinSpace(parts[1..]);
      assert j == parts[0] + " " + tail;
      if AllStripSpace(j) {
        assert AllStripSpace(parts[0]) by {
          forall i | 0 <= i < |parts[0]| ensures IsStripSpace(parts[0][i]) { assert j[i] == parts[0][i]; }
        }
        assert AllStripSpace(tail) by {
          forall i | 0 <= i < |tail| ensures IsStripSpace(tail[i]) { assert j[|parts[0]| + 1 + i] == tail[i]; }
        }
        forall k | 0 <= k < |parts| ensures AllStripSpace(parts[k]) {
          if k > 0 { assert parts[k] == parts[1..][k - 1]; }
        }
      } else {
        var i :| 0 <= i < |j| && !IsStripSpace(j[i]);
        if i < |parts[0]| {
          assert j[i] == parts[0][i];
        } else {
          assert i > |parts[0]|;
          assert j[i] == tail[i - |parts[0]| - 1];
          var k :| 0 <= k < |parts[1..]| && !AllStripSpace(parts[1..][k]);
          assert parts[1..][k] == parts[k + 1];
        }
      }
    }
  }

  lemma {:induction false} JoinSpaceEnds(parts: seq<string>)
    requires parts != [] && parts[0] != "" && parts[|parts| - 1] != ""
    ensures JoinSpace(parts)[0] == parts[0][0]
    ensures JoinSpace(parts)[|JoinSpace(parts)| - 1] == parts[|parts| - 1][|parts[|parts| - 1]| - 1]
  {
    if |parts| > 1 {
      var tail := parts[1..];
      assert tail[|tail| - 1] == parts[|parts| - 1];
      if tail[0] != "" {
        JoinSpaceEnds(tail);
      } else {
        JoinSpaceLastOnly(tail);
      }
    }
  }

  lemma {:induction false} JoinSpaceLastOnly(parts: seq<string>)
    requires parts != [] && parts[|parts| - 1] != ""
    ensures JoinSpace(parts)[|JoinSpace(parts)| - 1] == parts[|parts| - 1][|parts[|parts| - 1]| - 1]
  {
    if |parts| > 1 {
      var tail := parts[1..];
      assert tail[|tail| - 1] == parts[|parts| - 1];
      JoinSpaceLastOnly(tail);
    }
  }

  /** Joining non-empty, trimmed parts gives a trimmed string. */
  lemma JoinSpaceTrimmed(parts: seq<string>)
    requires forall k :: 0 <= k < |parts| ==> parts[k] != "" && Trimmed(parts[k])
    ensures Trimmed(JoinSpace(parts))
  {
    if parts != [] {
      JoinSpaceEnds(parts);
    }
  }

  // ---------------------------------------------------------------------
  // String#to_i (base 10)
  // ---------------------------------------------------------------------

  predicate IsDigit(c: char) {
    '0' <= c <= '9'
  }

  predicate AllDigits(s: string) {
    forall i :: 0 <= i < |s| ==> IsDigit(s[i])
  }

  /** The white space String#to_i skips before the number: space, tab, line feed, vertical tab, form feed, carriage return. */
  predicate IsLeadingSpace(c: char) {
    c == ' ' || c == '\t' || c == '\n' || c == '\U{B}' || c == '\U{C}' || c == '\r'
  }

  /** The suffix left after dropping leading white space. */
  function SkipSpace(s: string): (r: string)
    ensures |r| <= |s| && r == s[|s| - |r|..]
    ensures forall i :: 0 <= i < |s| - |r| ==> IsLeadingSpace(s[i])
    ensures r == "" || !IsLeadingSpace(r[0])
    decreases |s|
  {
    if |s| > 0 && IsLeadingSpace(s[0]) then SkipSpace(s[1..]) else s
  }

  /** The longest prefix of s made of decimal digits. */
  function LeadingDigits(s: string): (r: string)
    ensures |r| <= |s| && r == s[..|r|]
    ensures AllDigits(r)
    ensures |r| == |s| || !IsDigit(s[|r|])
  {
    if |s| > 0 && IsDigit(s[0]) then [s[0]] + LeadingDigits(s[1..]) else ""
  }

  function DigitValue(c: char): nat {
    if IsDigit(c) then (c as int) - ('0' as int) else 0
  }

  function DigitChar(d: nat): char
    requires d < 10
  {
    (('0' as int) + d) as char
  }

  /** The number a string of decimal digits denotes, most significant digit first. */
  function DigitsValue(ds: string): nat {
    if ds == "" then 0 else DigitsValue(ds[..|ds| - 1]) * 10 + DigitValue(ds[|ds| - 1])
  }

  /**
   * String#to_i: skip leading white space, read an optional sign, then as many
   * decimal digits as follow; anything after them is ignored, and no digits at
   * all gives 0.
   */
  function ToI(s: string): (n: int)
    ensures n < 0 ==> SkipSpace(s) != "" && SkipSpace(s)[0] == '-'
  {
    var t := SkipSpace(s);
    if |t| > 0 && t[0] == '-' then -(DigitsValue(LeadingDigits(t[1..])) as int)
    else if |t| > 0 && t[0] == '+' then DigitsValue(LeadingDigits(t[1..]))
    else DigitsValue(LeadingDigits(t))
  }

  /** Integer#to_s for naturals: the shortest decimal spelling. */
  function Decimal(n: nat): (r: string)
    ensures r != "" && AllDigits(r)
    ensures |r| > 1 ==> r[0] != '0'
  {
    if n < 10 then [DigitChar(n)] else Decimal(n / 10) + [DigitChar(n % 10)]
  }

  lemma {:induction false} DigitsValueOfDecimal(n: nat)
    ensures DigitsValue(Decimal(n)) == n
  {
    var d := Decimal(n);
    if n >= 10 {
      DigitsValueOfDecimal(n / 10);
      assert d[..|d| - 1] == Decimal(n / 10);
    }
  }

  lemma {:induction false} LeadingDigitsStopsAtNonDigit(ds: string, rest: string)
    requires AllDigits(ds)
    requires rest == "" || !IsDigit(rest[0])
    ensures LeadingDigits(ds + rest) == ds
  {
    if ds != "" {
      LeadingDigitsStopsAtNonDigit(ds[1..], rest);
      assert (ds + rest)[1..] == ds[1..] + rest;
    } else {
      assert ds + rest == rest;
    }
  }

  lemma SkipSpaceNoLead(s: string)
    requires s != "" && !IsLeadingSpace(s[0])
    ensures SkipSpace(s) == s
  {
  }

  /** A string that starts with a digit is read without looking for white space or a sign. */
  lemma ToIOfDigitStart(x: string)
    requires x != "" && IsDigit(x[0])
    ensures ToI(x) == DigitsValue(LeadingDigits(x))
    ensures ToI("-" + x) == -(DigitsValue(LeadingDigits(x)) as int)
    ensures ToI("+" + x) == DigitsValue(LeadingDigits(x))
  {
    SkipSpaceNoLead(x);
    assert ("-" + x)[1..] == x;
    SkipSpaceNoLead("-" + x);
    assert ("+" + x)[1..] == x;
    SkipSpaceNoLead("+" + x);
  }

  /** A run of digits followed by a non-digit (or nothing) is read as the value of the run. */
  lemma ToIOfDigitsThen(ds: string, rest: string)
    requires ds != "" && AllDigits(ds)
    requires rest == "" || !IsDigit(rest[0])
    ensures ToI(ds + rest) == DigitsValue(ds)
    ensures ToI("-" + (ds + rest)) == -(DigitsValue(ds) as int)
    ensures ToI("+" + (ds + rest)) == DigitsValue(ds)
  {
    var x := ds + rest;
    LeadingDigitsStopsAtNonDigit(ds, rest);
    assert x[0] == ds[0];
    ToIOfDigitStart(x);
  }

  /** to_i reads back the decimal spelling of n, whatever non-digit text follows it. */
  lemma ToIOfDecimal(n: nat, rest: string)
    requires rest == "" || !IsDigit(rest[0])
    ensures ToI(Decimal(n) + rest) == n
    ensures ToI("-" + (Decimal(n) + rest)) == -(n as int)
    ensures ToI("+" + (Decimal(n) + rest)) == n
  {
    DigitsValueOfDecimal(n);
    ToIOfDigitsThen(Decimal(n), rest);
  }

  /** A leading "0" does not change the value of a digit run. */
  lemma {:induction false} DigitsValueOfLeadingZero(ds: string)
    ensures DigitsValue("0" + ds) == DigitsValue(ds)
  {
    if ds != "" {
      var z := "0" + ds;
      assert z[..|z| - 1] == "0" + ds[..|ds| - 1];
      assert z[|z| - 1] == ds[|ds| - 1];
      DigitsValueOfLeadingZero(ds[..|ds| - 1]);
    } else {
      assert ("0" + ds)[..0] == "";
    }
  }

  /** Any number of leading zeros does not change the value of a digit run. */
  lemma {:induction false} DigitsValueOfLeadingZeros(zs: string, ds: string)
    requires forall i :: 0 <= i < |zs| ==> zs[i] == '0'
    ensures DigitsValue(zs + ds) == DigitsValue(ds)
  {
    if zs != "" {
      assert zs + ds == "0" + (zs[1..] + ds);
      DigitsValueOfLeadingZero(zs[1..] + ds);
      DigitsValueOfLeadingZeros(zs[1..], ds);
    } else {
      assert zs + ds == ds;
    }
  }

  /** to_i reads a zero-padded decimal spelling of n ("05", "007") as n. */
  lemma ToIOfZeroPaddedDecimal(zs: string, n: nat, rest: string)
    requires forall i :: 0 <= i < |zs| ==> zs[i] == '0'
    requires rest == "" || !IsDigit(rest[0])
    ensures ToI((zs + Decimal(n)) + rest) == n
  {
    var ds := zs + Decimal(n);
    assert AllDigits(ds) by {
      forall i | 0 <= i < |ds| ensures IsDigit(ds[i]) {
        if i >= |zs| {
          assert ds[i] == Decimal(n)[i - |zs|];
        }
      }
    }
    DigitsValueOfLeadingZeros(zs, Decimal(n));
    DigitsValueOfDecimal(n);
    ToIOfDigitsThen(ds, rest);
  }

  /** Leading white space does not change the value. */
  lemma {:induction false} ToISkipsLeadingSpace(ws: string, s: string)
    requires forall i :: 0 <= i < |ws| ==> IsLeadingSpace(ws[i])
    ensures ToI(ws + s) == ToI(s)
  {
    if ws != "" {
      assert (ws + s)[1..] == ws[1..] + s;
      ToISkipsLeadingSpace(ws[1..], s);
    } else {
      assert ws + s == s;
    }
  }

  /** No digit right after the sign, or no sign and no digit first: to_i gives 0, whatever digits come later. */
  lemma ToIOfNoLeadingDigit(t: string)
    requires t == "" || !IsDigit(t[0])
    ensures ToI("-" + t) == 0 && ToI("+" + t) == 0
    ensures (t == "" || (t[0] != '-' && t[0] != '+' && !IsLeadingSpace(t[0]))) ==> ToI(t) == 0
  {
    ToIOfSignThenNoDigit('-', t);
    ToIOfSignThenNoDigit('+', t);
    if t == "" {
      assert SkipSpace(t) == "";
    } else if t[0] != '-' && t[0] != '+' && !IsLeadingSpace(t[0]) {
      ToIOfUnsigned(t);
      LeadingDigitsOfNoDigit(t);
    }
  }

  /** No digit first: the leading digit run is empty. */
  lemma LeadingDigitsOfNoDigit(t: string)
    requires t == "" || !IsDigit(t[0])
    ensures LeadingDigits(t) == ""
  {
  }

  /** A sign, then no digit: to_i gives 0. */
  lemma ToIOfSignThenNoDigit(c: char, t: string)
    requires c == '-' || c == '+'
    requires t == "" || !IsDigit(t[0])
    ensures ToI([c] + t) == 0
  {
    SkipSpaceNoLead([c] + t);
    assert ([c] + t)[1..] == t;
    LeadingDigitsOfNoDigit(t);
  }

  /** No white space or sign first: to_i reads the leading digit run. */
  lemma ToIOfUnsigned(t: string)
    requires t != "" && t[0] != '-' && t[0] != '+' && !IsLeadingSpace(t[0])
    ensures ToI(t) == DigitsValue(LeadingDigits(t))
  {
    SkipSpaceNoLead(t);
  }

  /** A string without any decimal digit (an absent number, a word) converts to 0. */
  lemma ToIWithoutDigits(s: string)
    requires forall i :: 0 <= i < |s| ==> !IsDigit(s[i])
    ensures ToI(s) == 0
  {
    var t := SkipSpace(s);
    if |t| > 0 {
      assert t[0] == s[|s| - |t|];
      assert |t| > 1 ==> t[1] == s[|s| - |t| + 1];
    }
  }
}
