/** The pairing-PIN format check of `pair_with_shield`: the typed line is
    stripped and upper-cased, and is accepted only when it is then exactly six
    characters from `0123456789ABCDEF`.
 */
module Pin {
  import opened PyStr

  const PinAlphabet := "0123456789ABCDEF"

  const PinLength := 6

  /** `input(...).strip().upper()` */
  function Normalize(raw: string): string
  {
    Upper(Strip(raw))
  }

  /** `len(pin) == 6 and all(c in '0123456789ABCDEF' for c in pin)` */
  predicate WellFormed(pin: string)
  {
    |pin| == PinLength && forall i :: 0 <= i < |pin| ==> pin[i] in PinAlphabet
  }

  /** The typed line passes the format check. */
  predicate Accepted(raw: string)
  {
    WellFormed(Normalize(raw))
  }

  /** A hexadecimal digit in either case. */
  predicate IsHexDigit(c: char)
  {
    '0' <= c <= '9' || 'a' <= c <= 'f' || 'A' <= c <= 'F'
  }

  lemma AlphabetMembership(c: char)
    ensures c in PinAlphabet <==> ('0' <= c <= '9' || 'A' <= c <= 'F')
  {
    if '0' <= c <= '9' || 'A' <= c <= 'F' {
      var i := if c <= '9' then c as int - '0' as int else c as int - 'A' as int + 10;
      assert PinAlphabet[i] == c;
    }
  }

  /** Upper-casing a character lands in the alphabet exactly for hex digits
      of either case. */
  lemma UpperCharInAlphabet(c: char)
    ensures UpperChar(c) in PinAlphabet <==> IsHexDigit(c)
  {
    AlphabetMembership(UpperChar(c));
  }

  /** A line is accepted exactly when, once stripped, it is six hexadecimal
      digits in any mix of cases. */
  lemma AcceptedIff(raw: string)
    ensures Accepted(raw) <==>
      (|Strip(raw)| == PinLength && forall i :: 0 <= i < PinLength ==> IsHexDigit(Strip(raw)[i]))
  {
    var s := Strip(raw);
    UpperAt(s);
    forall i | 0 <= i < |s| ensures Upper(s)[i] in PinAlphabet <==> IsHexDigit(s[i]) {
      UpperCharInAlphabet(s[i]);
    }
  }

  /** Lower-case hex digits and surrounding whitespace are accepted, and the
      PIN submitted is the upper-cased digits. */
  lemma HexWithSpacesAccepted(a: string, core: string, b: string)
    requires AllSpace(a) && AllSpace(b)
    requires |core| == PinLength && forall i :: 0 <= i < |core| ==> IsHexDigit(core[i])
    ensures Accepted(a + core + b)
    ensures Normalize(a + core + b) == Upper(core)
  {
    assert !IsSpace(core[0]) && !IsSpace(core[|core| - 1]);
    StripSurrounded(a, core, b);
    AcceptedIff(a + core + b);
  }

  /** Upper-casing never turns a character into whitespace or back. */
  lemma UpperKeepsTrimmed(t: string)
    requires Trimmed(t)
    ensures Trimmed(Upper(t))
  {
    UpperAt(t);
  }

  lemma {:induction false} UpperIdempotent(s: string)
    ensures Upper(Upper(s)) == Upper(s)
  {
    if s != [] {
      UpperIdempotent(s[1..]);
    }
  }

  /** Normalizing a line that is already normalized changes nothing. */
  lemma NormalizeIdempotent(raw: string)
    ensures Normalize(Normalize(raw)) == Normalize(raw)
  {
    var t := Strip(raw);
    StripShape(raw);
    UpperKeepsTrimmed(t);
    assert [] + Upper(t) + [] == Upper(t);
    StripSurrounded([], Upper(t), []);
    UpperIdempotent(t);
  }

  lemma UpperCaseExample()
    ensures Accepted("4D292B")
  {
    HexWithSpacesAccepted("", "4D292B", "");
    assert "" + "4D292B" + "" == "4D292B";
  }

  lemma LowerCaseWithSpacesExample()
    ensures Accepted(" 4d292b\r")
  {
    HexWithSpacesAccepted(" ", "4d292b", "\r");
    assert " " + "4d292b" + "\r" == " 4d292b\r";
  }

  lemma TooShortExample()
    ensures !Accepted("4D292")
  {
    StripSurrounded("", "4D292", "");
    assert "" + "4D292" + "" == "4D292";
    AcceptedIff("4D292");
  }

  lemma NotHexExample()
    ensures !Accepted("4D292G")
  {
    StripSurrounded("", "4D292G", "");
    assert "" + "4D292G" + "" == "4D292G";
    AcceptedIff("4D292G");
    assert !IsHexDigit("4D292G"[5]);
  }
}
