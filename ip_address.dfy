/** `validate_ip`: the IPv4 address check applied to a host given on the
    command line or typed at the prompt.

    The check is a regular-expression match of the whole string against
    `^(\d{1,3}\.){3}\d{1,3}$` followed by a range check `0 <= int(o) <= 255`
    on every dot-separated octet. `\d` is taken to be an ASCII digit.
 */
module IpAddress {
  import opened PyStr

  predicate IsDigit(c: char)
  {
    '0' <= c <= '9'
  }

  predicate AllDigits(t: string)
  {
    forall i :: 0 <= i < |t| ==> IsDigit(t[i])
  }

  /** Text matched by `\d{1,3}`. */
  predicate OctetText(t: string)
  {
    1 <= |t| <= 3 && AllDigits(t)
  }

  /** `s` matches `(\d{1,3}\.){n}\d{1,3}` from its first to its last character.
      The regular expression engine may choose any length 1..3 for each digit
      group, so each repetition is an existential choice of the position of
      the dot that ends it. */
  predicate MatchesGroups(s: string, n: nat)
    decreases n
  {
    if n == 0 then OctetText(s)
    else exists k :: 1 <= k <= 3 && k < |s| && OctetText(s[..k]) && s[k] == '.'
                     && MatchesGroups(s[k + 1..], n - 1)
  }

  /** `re.match(r'^(\d{1,3}\.){3}\d{1,3}$', ip)` succeeds. */
  predicate MatchesIpPattern(ip: string)
  {
    MatchesGroups(ip, 3)
  }

  function DigitValue(c: char): nat
  {
    if IsDigit(c) then c as int - '0' as int else 0
  }

  /** `int(t)` for a string of ASCII digits: the digits read most significant first. */
  function DecimalValue(t: string): nat
  {
    if t == [] then 0 else DecimalValue(t[..|t| - 1]) * 10 + DigitValue(t[|t| - 1])
  }

  /** `validate_ip(ip)` */
  predicate ValidateIp(ip: string)
  {
    MatchesIpPattern(ip)
    && var octets := Split(ip, '.');
       forall i :: 0 <= i < |octets| ==> 0 <= DecimalValue(octets[i]) <= 255
  }

  // ---------------------------------------------------------------------------
  // Reference definition: a dotted quad
  // ---------------------------------------------------------------------------

  /** One to three decimal digits whose value is at most 255 (leading zeros allowed). */
  predicate ValidOctet(t: string)
  {
    OctetText(t) && DecimalValue(t) <= 255
  }

  /** Exactly four valid octets. */
  predicate IsDottedQuad(g: seq<string>)
  {
    |g| == 4 && forall i :: 0 <= i < 4 ==> ValidOctet(g[i])
  }

  function Pow10(n: nat): nat
  {
    if n == 0 then 1 else 10 * Pow10(n - 1)
  }

  // ---------------------------------------------------------------------------
  // Lemmas
  // ---------------------------------------------------------------------------

  /** A string of n digits has a value below 10^n; an octet text is below 1000,
      so of the two bounds in `0 <= int(o) <= 255` only the upper one can fail. */
  lemma {:induction false} DecimalValueBound(t: string)
    requires AllDigits(t)
    ensures DecimalValue(t) < Pow10(|t|)
    ensures OctetText(t) ==> DecimalValue(t) < 1000
  {
    if t != [] {
      DecimalValueBound(t[..|t| - 1]);
    }
    if OctetText(t) {
      assert Pow10(|t|) <= Pow10(3) == 1000;
    }
  }

  /** A leading zero does not change the value: `int("0" + t) == int(t)`. */
  lemma {:induction false} LeadingZeroValue(t: string)
    ensures DecimalValue(['0'] + t) == DecimalValue(t)
  {
    if t != [] {
      var z := ['0'] + t;
      assert z[..|z| - 1] == ['0'] + t[..|t| - 1];
      assert z[|z| - 1] == t[|t| - 1];
      LeadingZeroValue(t[..|t| - 1]);
    } else {
      var z := ['0'];
      assert z[..|z| - 1] == [];
    }
  }

  lemma DigitsAreSepFree(t: string)
    requires AllDigits(t)
    ensures '.' !in t
  {
    assert forall i :: 0 <= i < |t| ==> t[i] != '.';
  }

  lemma AllDigitsTail(s: string, k: nat)
    requires k <= |s| && AllDigits(s)
    ensures AllDigits(s[k..])
  {
    forall i | 0 <= i < |s| - k ensures IsDigit(s[k..][i]) {
      assert s[k..][i] == s[k + i];
    }
  }

  /** `split('.')` yields n + 1 pieces, each of one to three digits. */
  predicate SplitsIntoOctetTexts(s: string, n: nat)
  {
    var g := Split(s, '.');
    |g| == n + 1 && forall i :: 0 <= i < n + 1 ==> OctetText(g[i])
  }

  /** The pattern match is the same as: `split('.')` yields n + 1 pieces, each
      of one to three digits. */
  lemma MatchesGroupsSplit(s: string, n: nat)
    ensures MatchesGroups(s, n) <==> SplitsIntoOctetTexts(s, n)
  {
    if MatchesGroups(s, n) {
      MatchToSplit(s, n);
    }
    if SplitsIntoOctetTexts(s, n) {
      SplitToMatch(s, n);
    }
  }

  /** The position of the dot that ends the first repetition of a match. */
  lemma FirstGroup(s: string, n: nat) returns (k: nat)
    requires 1 <= n && MatchesGroups(s, n)
    ensures 1 <= k <= 3 && k < |s| && OctetText(s[..k]) && s[k] == '.'
    ensures MatchesGroups(s[k + 1..], n - 1)
  {
    k :| 1 <= k <= 3 && k < |s| && OctetText(s[..k]) && s[k] == '.'
         && MatchesGroups(s[k + 1..], n - 1);
  }

  lemma {:induction false} MatchToSplit(s: string, n: nat)
    requires MatchesGroups(s, n)
    ensures SplitsIntoOctetTexts(s, n)
  {
    if n == 0 {
      SingleOctetSplit(s);
    } else {
      var k := FirstGroup(s, n);
      MatchToSplit(s[k + 1..], n - 1);
      OctetThenSplit(s, k, n);
    }
  }

  lemma SingleOctetSplit(s: string)
    requires OctetText(s)
    ensures SplitsIntoOctetTexts(s, 0)
  {
    DigitsAreSepFree(s);
    SplitJoin([s], '.');
  }

  /** One octet text and a dot in front of a text that splits into n pieces. */
  lemma OctetThenSplit(s: string, k: nat, n: nat)
    requires 1 <= n && 1 <= k < |s| && OctetText(s[..k]) && s[k] == '.'
    requires SplitsIntoOctetTexts(s[k + 1..], n - 1)
    ensures SplitsIntoOctetTexts(s, n)
  {
    var t, rest := s[..k], s[k + 1..];
    DigitsAreSepFree(t);
    assert s == t + ['.'] + rest;
    SplitCons(t, rest, '.');
    var g := Split(s, '.');
    var h := Split(rest, '.');
    assert g == [t] + h;
    forall i | 0 <= i < n + 1 ensures OctetText(g[i]) {
      if i > 0 { assert g[i] == h[i - 1]; }
    }
  }

  lemma {:induction false} SplitToMatch(s: string, n: nat)
    requires SplitsIntoOctetTexts(s, n)
    ensures MatchesGroups(s, n)
  {
    if n == 0 {
      JoinSplit(s, '.');
      assert OctetText(Split(s, '.')[0]);
    } else {
      var k := SplitOffOctet(s, n);
      SplitToMatch(s[k + 1..], n - 1);
    }
  }

  /** The first of n + 1 octet-text pieces ends at the first dot, at position
      k in 1..3, and the text after that dot splits into the other n pieces. */
  lemma SplitOffOctet(s: string, n: nat) returns (k: nat)
    requires 1 <= n && SplitsIntoOctetTexts(s, n)
    ensures 1 <= k <= 3 && k < |s| && OctetText(s[..k]) && s[k] == '.'
    ensures SplitsIntoOctetTexts(s[k + 1..], n - 1)
  {
    var g := Split(s, '.');
    SplitHead(s, '.');
    k := |g[0]|;
    assert OctetText(g[0]);
    var h := Split(s[k + 1..], '.');
    assert h == g[1..];
    forall i | 0 <= i < n ensures OctetText(h[i]) {
      assert h[i] == g[i + 1];
    }
  }

  /** `validate_ip(ip)` holds exactly when `ip.split('.')` is a dotted quad. */
  lemma ValidateIpSplit(ip: string)
    ensures ValidateIp(ip) <==> IsDottedQuad(Split(ip, '.'))
  {
    MatchesGroupsSplit(ip, 3);
  }

  /** `validate_ip(ip)` holds exactly when `ip` is four valid octets joined by
      single dots. */
  lemma ValidateIpIsDottedQuad(ip: string)
    ensures ValidateIp(ip) <==> exists g :: IsDottedQuad(g) && Join(g, '.') == ip
  {
    ValidateIpSplit(ip);
    if ValidateIp(ip) {
      JoinSplit(ip, '.');
      assert IsDottedQuad(Split(ip, '.')) && Join(Split(ip, '.'), '.') == ip;
    }
    if exists g :: IsDottedQuad(g) && Join(g, '.') == ip {
      var g :| IsDottedQuad(g) && Join(g, '.') == ip;
      DottedQuadRoundTrip(g);
    }
  }

  /** Every dotted quad, written out with dots, is accepted, and splitting it
      recovers the octets. */
  lemma DottedQuadRoundTrip(g: seq<string>)
    requires IsDottedQuad(g)
    ensures Split(Join(g, '.'), '.') == g
    ensures ValidateIp(Join(g, '.'))
  {
    forall i | 0 <= i < |g| ensures '.' !in g[i] {
      DigitsAreSepFree(g[i]);
    }
    SplitJoin(g, '.');
    ValidateIpSplit(Join(g, '.'));
  }

  /** Validity depends on each octet's value, not on how it is spelled: two
      quads of digit groups with the same values are both accepted or both
      rejected. */
  lemma SpellingIrrelevant(g: seq<string>, h: seq<string>)
    requires |g| == 4 && |h| == 4
    requires forall i :: 0 <= i < 4 ==> OctetText(g[i]) && OctetText(h[i])
    requires forall i :: 0 <= i < 4 ==> DecimalValue(g[i]) == DecimalValue(h[i])
    ensures ValidateIp(Join(g, '.')) <==> ValidateIp(Join(h, '.'))
  {
    forall i | 0 <= i < 4 ensures '.' !in g[i] && '.' !in h[i] {
      DigitsAreSepFree(g[i]);
      DigitsAreSepFree(h[i]);
    }
    SplitJoin(g, '.');
    SplitJoin(h, '.');
    ValidateIpSplit(Join(g, '.'));
    ValidateIpSplit(Join(h, '.'));
  }

  predicate DigitsOrDots(s: string)
  {
    forall i :: 0 <= i < |s| ==> IsDigit(s[i]) || s[i] == '.'
  }

  lemma DigitsDotThen(s: string, k: nat)
    requires k < |s| && AllDigits(s[..k]) && s[k] == '.' && DigitsOrDots(s[k + 1..])
    ensures DigitsOrDots(s)
  {
    forall i | 0 <= i < |s| ensures IsDigit(s[i]) || s[i] == '.' {
      if i < k {
        assert s[i] == s[..k][i];
      } else if i > k {
        assert s[i] == s[k + 1..][i - k - 1];
      }
    }
  }

  /** Whatever matches the pattern consists of digits and dots only and has
      between 2n + 1 and 4n + 3 characters. */
  lemma {:induction false} MatchedText(s: string, n: nat)
    requires MatchesGroups(s, n)
    ensures 2 * n + 1 <= |s| <= 4 * n + 3
    ensures DigitsOrDots(s)
  {
    if n > 0 {
      var k := FirstGroup(s, n);
      MatchedText(s[k + 1..], n - 1);
      DigitsDotThen(s, k);
    }
  }

  /** An accepted address has 7 to 15 characters, all digits or dots: the
      empty string, letters, signs and spaces are rejected. */
  lemma AcceptedText(ip: string)
    requires ValidateIp(ip)
    ensures 7 <= |ip| <= 15
    ensures forall i :: 0 <= i < |ip| ==> IsDigit(ip[i]) || ip[i] == '.'
  {
    MatchedText(ip, 3);
  }

  /** Three or five groups are rejected, whatever the groups are. */
  lemma WrongGroupCountRejected(ip: string)
    requires |Split(ip, '.')| != 4
    ensures !ValidateIp(ip)
  {
    ValidateIpSplit(ip);
  }

  /** An octet whose value is above 255 makes the whole address invalid. */
  lemma OctetOutOfRangeRejected(ip: string, i: nat)
    requires i < |Split(ip, '.')| && DecimalValue(Split(ip, '.')[i]) > 255
    ensures !ValidateIp(ip)
  {
  }

  // ---------------------------------------------------------------------------
  // Examples
  // ---------------------------------------------------------------------------

  lemma OctetExamples()
    ensures DecimalValue("0") == 0 && DecimalValue("000") == 0
    ensures DecimalValue("255") == 255 && DecimalValue("256") == 256
    ensures DecimalValue("010") == 10 && DecimalValue("001") == 1
  {
    assert "255"[..2] == "25" && "25"[..1] == "2";
    assert "256"[..2] == "25";
    assert "010"[..2] == "01" && "01"[..1] == "0";
    assert "001"[..2] == "00" && "00"[..1] == "0";
    assert "000"[..2] == "00";
  }

  lemma ZeroAddressExample()
    ensures ValidateIp("0.0.0.0")
  {
    OctetExamples();
    var g := ["0", "0", "0", "0"];
    assert Join(g, '.') == "0.0.0.0";
    DottedQuadRoundTrip(g);
  }

  lemma BroadcastAddressExample()
    ensures ValidateIp("255.255.255.255")
  {
    OctetExamples();
    var g := ["255", "255", "255", "255"];
    assert Join(g, '.') == "255.255.255.255";
    DottedQuadRoundTrip(g);
  }

  /** Leading zeros are accepted. */
  lemma LeadingZerosExample()
    ensures ValidateIp("010.001.000.255")
  {
    OctetExamples();
    var g := ["010", "001", "000", "255"];
    assert Join(g, '.') == "010.001.000.255";
    DottedQuadRoundTrip(g);
  }

  lemma OutOfRangeExample()
    ensures !ValidateIp("256.1.1.1")
  {
    OctetExamples();
    var high := ["256", "1", "1", "1"];
    assert Join(high, '.') == "256.1.1.1";
    SplitJoin(high, '.');
    OctetOutOfRangeRejected("256.1.1.1", 0);
  }

  /** A character other than a digit or a dot anywhere rejects the address. */
  lemma ForeignCharRejected(ip: string, i: nat)
    requires i < |ip| && !IsDigit(ip[i]) && ip[i] != '.'
    ensures !ValidateIp(ip)
  {
    if ValidateIp(ip) {
      AcceptedText(ip);
    }
  }

  lemma EmptyRejected()
    ensures !ValidateIp("")
  {
    if ValidateIp("") {
      AcceptedText("");
    }
  }

  lemma LetterRejected()
    ensures !ValidateIp("1.2.3.a")
  {
    ForeignCharRejected("1.2.3.a", 6);
  }

  lemma SignRejected()
    ensures !ValidateIp("-1.2.3.4")
  {
    ForeignCharRejected("-1.2.3.4", 0);
  }

  lemma ThreeGroupsRejected()
    ensures !ValidateIp("1.2.3")
  {
    var g := ["1", "2", "3"];
    assert Join(g, '.') == "1.2.3";
    SplitJoin(g, '.');
    WrongGroupCountRejected("1.2.3");
  }

  lemma FiveGroupsRejected()
    ensures !ValidateIp("1.2.3.4.5")
  {
    var g := ["1", "2", "3", "4", "5"];
    assert Join(g, '.') == "1.2.3.4.5";
    SplitJoin(g, '.');
    WrongGroupCountRejected("1.2.3.4.5");
  }
}
