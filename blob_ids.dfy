/**
  The blob identifier codec. A well-formed identifier reads
  `blob://<10 decimal digits>-<16 lower-case hex digits>[.<alphanumeric extension>]`,
  for instance `blob://1700000000-0123456789abcdef.png`. Decoding is purely
  lexical: it never asks whether anything is stored under the identifier.
*/
module BlobIds {
  import opened Ascii
  import opened Outcomes

  const Scheme: string := "blob://"
  const StampWidth: nat := 10
  const FragmentWidth: nat := 16
  /** Where the stamp field starts, right after the scheme. */
  const StampStart: nat := |Scheme|
  /** Where the '-' between stamp and fragment sits. */
  const DashAt: nat := StampStart + StampWidth
  /** Where the fragment field starts. */
  const FragmentStart: nat := DashAt + 1
  /** Length of an identifier without its extension: scheme, stamp, '-', fragment. */
  const BaseLength: nat := FragmentStart + FragmentWidth

  function Pow10(n: nat): (p: nat)
    ensures p >= 1
  {
    if n == 0 then 1 else 10 * Pow10(n - 1)
  }

  /** Stamps that fit the ten-digit timestamp field. */
  const StampLimit: nat := Pow10(StampWidth)

  function DigitChar(d: nat): (c: char)
    requires d < 10
    ensures IsDigit(c)
  {
    ('0' as int + d) as char
  }

  function DigitValue(c: char): (d: nat)
    requires IsDigit(c)
    ensures d < 10 && DigitChar(d) == c
  {
    c as int - '0' as int
  }

  /** The last `width` decimal digits of `n`, zero-padded on the left. */
  function Decimal(n: nat, width: nat): (s: string)
    ensures |s| == width && AllDigits(s)
  {
    if width == 0 then [] else Decimal(n / 10, width - 1) + [DigitChar(n % 10)]
  }

  /** The number a string of decimal digits denotes. */
  function ValueOf(s: string): (n: nat)
    requires AllDigits(s)
    ensures n < Pow10(|s|)
  {
    if s == [] then 0 else 10 * ValueOf(s[..|s| - 1]) + DigitValue(s[|s| - 1])
  }

  lemma {:induction false} ValueOfDecimal(n: nat, width: nat)
    requires n < Pow10(width)
    ensures ValueOf(Decimal(n, width)) == n
  {
    if width > 0 {
      var s := Decimal(n, width);
      assert s[..|s| - 1] == Decimal(n / 10, width - 1);
      ValueOfDecimal(n / 10, width - 1);
    }
  }

  lemma {:induction false} DecimalOfValue(s: string)
    requires AllDigits(s)
    ensures Decimal(ValueOf(s), |s|) == s
  {
    if s != [] {
      var init := s[..|s| - 1];
      DecimalOfValue(init);
      DivMod10(ValueOf(init), DigitValue(s[|s| - 1]));
      assert s == init + [s[|s| - 1]];
    }
  }

  lemma DivMod10(q: nat, d: nat)
    requires d < 10
    ensures (10 * q + d) / 10 == q && (10 * q + d) % 10 == d
  {
  }

  /** The three fields an identifier carries. */
  datatype IdParts = IdParts(stamp: nat, fragment: string, ext: string)

  predicate IsFragment(f: string) { |f| == FragmentWidth && AllLowerHex(f) }

  /** An extension is absent, or a '.' followed by at least one alphanumeric character. */
  predicate IsExtension(e: string) { e == [] || (|e| >= 2 && e[0] == '.' && AllAlnum(e[1..])) }

  predicate ValidParts(p: IdParts) {
    p.stamp < StampLimit && IsFragment(p.fragment) && IsExtension(p.ext)
  }

  function Encode(p: IdParts): string {
    Scheme + Decimal(p.stamp, StampWidth) + "-" + p.fragment + p.ext
  }

  function Decode(s: string): (r: Option<IdParts>)
    ensures r.Some? ==> ValidParts(r.value) && |s| >= BaseLength && s[..|Scheme|] == Scheme
  {
    if |s| >= BaseLength
       && s[..StampStart] == Scheme
       && AllDigits(s[StampStart..DashAt])
       && s[DashAt] == '-'
       && IsFragment(s[FragmentStart..BaseLength])
       && IsExtension(s[BaseLength..])
    then Some(IdParts(ValueOf(s[StampStart..DashAt]), s[FragmentStart..BaseLength], s[BaseLength..]))
    else None
  }

  predicate IsWellFormed(s: string) { Decode(s).Some? }

  /** Decoding undoes encoding on every valid triple. */
  lemma DecodeEncode(p: IdParts)
    requires ValidParts(p)
    ensures Decode(Encode(p)) == Some(p)
  {
    var digits := Decimal(p.stamp, StampWidth);
    var s := Encode(p);
    assert s[..StampStart] == Scheme;
    assert s[StampStart..DashAt] == digits;
    assert s[DashAt] == '-';
    assert s[FragmentStart..BaseLength] == p.fragment;
    assert s[BaseLength..] == p.ext;
    ValueOfDecimal(p.stamp, StampWidth);
  }

  /** Every well-formed identifier is the encoding of what it decodes to. */
  lemma EncodeDecode(s: string)
    requires IsWellFormed(s)
    ensures ValidParts(Decode(s).value) && Encode(Decode(s).value) == s
  {
    var p := Decode(s).value;
    var stamp := s[StampStart..DashAt];
    DecimalOfValue(stamp);
    assert s[DashAt..FragmentStart] == "-";
    assert s == s[..StampStart] + stamp + s[DashAt..FragmentStart] + p.fragment + p.ext;
  }

  /** Distinct valid triples give distinct identifiers. */
  lemma EncodeInjective(p: IdParts, q: IdParts)
    requires ValidParts(p) && ValidParts(q) && Encode(p) == Encode(q)
    ensures p == q
  {
    DecodeEncode(p);
    DecodeEncode(q);
  }

  /** Any ten digits, a fragment and an extension, laid out in order, make a well-formed identifier. */
  lemma WellFormedLayout(digits: string, fragment: string, ext: string)
    requires |digits| == StampWidth && AllDigits(digits) && IsFragment(fragment) && IsExtension(ext)
    ensures IsWellFormed(Scheme + digits + "-" + fragment + ext)
  {
    var s := Scheme + digits + "-" + fragment + ext;
    assert s[..StampStart] == Scheme && s[StampStart..DashAt] == digits && s[DashAt] == '-';
    assert s[FragmentStart..BaseLength] == fragment && s[BaseLength..] == ext;
  }

  /** The well-formed identifier the engine's tests look up without storing it. */
  const UnknownId: string := Scheme + "9999999999" + "-" + "0123456789abcdef" + ".txt"

  /** The identifiers the engine's tests use: "invalid" is malformed, `UnknownId` is well-formed. */
  lemma TestIdentifiers()
    ensures !IsWellFormed("invalid")
    ensures IsWellFormed(UnknownId)
  {
    var digits, fragment, ext := "9999999999", "0123456789abcdef", ".txt";
    assert AllDigits(digits) by { assert forall i :: 0 <= i < |digits| ==> digits[i] == '9'; }
    assert ext[1..] == "txt";
    WellFormedLayout(digits, fragment, ext);
  }
}
