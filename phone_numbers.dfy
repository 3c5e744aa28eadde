/** `Util.normalizePhoneNumber` and `Util.isProbablyAValidPhoneNumber`.
    The numeric branch goes through libphonenumber, which this model does not
    contain: its three calls are the fields of a `PhoneNumberUtil` value that
    the caller passes in. */
module PhoneNumbers {

  import opened Wrappers
  import opened Chars

  /** The region every number without a country prefix is parsed in. */
  const DefaultRegion: string := "IN"

  /** libphonenumber's `PhoneNumberUtil.PhoneNumberType`. */
  datatype PhoneNumberType =
    | FixedLine | Mobile | FixedLineOrMobile | TollFree | PremiumRate | SharedCost
    | Voip | PersonalNumber | Pager | Uan | Voicemail | Unknown

  /** A parsed `Phonenumber.PhoneNumber`, reduced to its two numeric parts. */
  datatype PhoneNumber = PhoneNumber(countryCode: nat, nationalNumber: nat)

  /** The libphonenumber calls of the numeric branch. `parse` gives None
      where the library throws (a NumberParseException or anything else);
      both are caught and turned into null. */
  datatype PhoneNumberUtil = PhoneNumberUtil(
    parse: (string, string) -> Option<PhoneNumber>,
    getNumberType: PhoneNumber -> PhoneNumberType,
    formatE164: PhoneNumber -> string)

  /** The regular expression replacement `[^a-z0-9]` -> "". */
  function StripNonLowerAlnum(s: string): (r: string)
    ensures forall i :: 0 <= i < |r| ==> IsLowerAlnum(r[i])
    ensures forall c :: c in r <==> c in s && IsLowerAlnum(c)
  {
    if s == [] then ""
    else if IsLowerAlnum(s[0]) then [s[0]] + StripNonLowerAlnum(s[1..])
    else StripNonLowerAlnum(s[1..])
  }

  /** The alias form of an input that holds a letter: lowercased, then
      stripped to `[a-z0-9]`. */
  function Alias(s: string): string {
    StripNonLowerAlnum(Lowercase(s))
  }

  /** The value of a string of decimal digits, most significant first. */
  function DigitsValue(s: string): int {
    if s == [] then 0 else DigitsValue(s[..|s| - 1]) * 10 + (s[|s| - 1] as int - '0' as int)
  }

  /** `Long.toString()` of a non-negative number: its decimal digits, with
      no leading zero, which read back give the number. */
  function Decimal(n: nat): (s: string)
    ensures s != []
    ensures forall i :: 0 <= i < |s| ==> IsAsciiDigit(s[i])
    ensures |s| > 1 ==> s[0] != '0'
    ensures DigitsValue(s) == n
  {
    var d := [('0' as int + n % 10) as char];
    if n < 10 then d
    else
      var high := Decimal(n / 10);
      assert (high + d)[..|high|] == high;
      high + d
  }

  /** The number types that are written with their country code. */
  predicate AddsCountryCode(t: PhoneNumberType) {
    t == Mobile || t == FixedLineOrMobile
  }

  /** `normalizePhoneNumber(number)` */
  function NormalizePhoneNumber(number: Option<string>, util: PhoneNumberUtil): (r: Option<string>)
    ensures number.None? ==> r.None?
    ensures number.Some? && ContainsAsciiLetter(number.value) ==>
      && r.Some?
      && (forall i :: 0 <= i < |r.value| ==> IsLowerAlnum(r.value[i]))
      && (forall c :: c in r.value <==> IsLowerAlnum(c) && exists j :: 0 <= j < |number.value| && c == ToLower(number.value[j]))
      && r.value == Alias(number.value)
    ensures number.Some? && !ContainsAsciiLetter(number.value) ==>
      (r.Some? <==> util.parse(number.value, DefaultRegion).Some?)
    ensures number.Some? && !ContainsAsciiLetter(number.value) && util.parse(number.value, DefaultRegion).Some? ==>
      var parsed := util.parse(number.value, DefaultRegion).value;
      r.value == if AddsCountryCode(util.getNumberType(parsed)) then util.formatE164(parsed) else Decimal(parsed.nationalNumber)
  {
    match number
    case None => None
    case Some(s) =>
      if ContainsAsciiLetter(s) then
        var l := Lowercase(s);
        assert forall c :: c in l <==> exists j :: 0 <= j < |s| && c == ToLower(s[j]) by {
          forall c | c in l ensures exists j :: 0 <= j < |s| && c == ToLower(s[j]) {
            var j :| 0 <= j < |l| && l[j] == c;
          }
        }
        Some(StripNonLowerAlnum(l))
      else
        match util.parse(s, DefaultRegion)
        case None => None
        case Some(parsed) =>
          if AddsCountryCode(util.getNumberType(parsed)) then Some(util.formatE164(parsed))
          else Some(Decimal(parsed.nationalNumber))
  }

  /** `isProbablyAValidPhoneNumber(number)`: only an input without letters
      that libphonenumber parses can pass. */
  function IsProbablyAValidPhoneNumber(number: string, util: PhoneNumberUtil): (valid: bool)
    ensures valid ==> !ContainsAsciiLetter(number) && util.parse(number, DefaultRegion).Some?
  {
    var normalized := NormalizePhoneNumber(Some(number), util);
    AliasKeepsLetter(number);
    if normalized.None? then false else !ContainsAsciiLetter(normalized.value)
  }

  /** What validity comes to, branch by branch: no letter in the input, a
      successful parse, and (for numbers written with their country code) an
      E.164 form without letters. The national-number branch always passes. */
  lemma ValidityCharacterization(number: string, util: PhoneNumberUtil)
    ensures IsProbablyAValidPhoneNumber(number, util) <==>
      && !ContainsAsciiLetter(number)
      && util.parse(number, DefaultRegion).Some?
      && var parsed := util.parse(number, DefaultRegion).value;
         AddsCountryCode(util.getNumberType(parsed)) ==> !ContainsAsciiLetter(util.formatE164(parsed))
  {
    if ContainsAsciiLetter(number) {
      AliasKeepsLetter(number);
    } else if util.parse(number, DefaultRegion).Some? {
      var parsed := util.parse(number, DefaultRegion).value;
      if !AddsCountryCode(util.getNumberType(parsed)) {
        DecimalHasNoLetter(parsed.nationalNumber);
      }
    }
  }

  /** An input with an ASCII letter is never a valid phone number. */
  lemma LetteredNeverValid(number: string, util: PhoneNumberUtil)
    requires ContainsAsciiLetter(number)
    ensures !IsProbablyAValidPhoneNumber(number, util)
  {
    AliasKeepsLetter(number);
  }

  lemma DecimalHasNoLetter(n: nat)
    ensures !ContainsAsciiLetter(Decimal(n))
  {
    var s := Decimal(n);
    forall i | 0 <= i < |s| ensures !IsAsciiLetter(s[i]) {
      assert IsAsciiDigit(s[i]);
    }
  }

  /** A letter in the input survives as a lowercase letter in the alias, so
      an alias is never taken for a phone number. */
  lemma AliasKeepsLetter(s: string)
    ensures ContainsAsciiLetter(s) ==> ContainsAsciiLetter(Alias(s))
  {
    if ContainsAsciiLetter(s) {
      var i :| 0 <= i < |s| && IsAsciiLetter(s[i]);
      var c := ToLower(s[i]);
      assert Lowercase(s)[i] == c;
      assert c in Alias(s);
      var j :| 0 <= j < |Alias(s)| && Alias(s)[j] == c;
      assert IsAsciiLetter(Alias(s)[j]);
    }
  }

  /** The filter works piece by piece: stripping a concatenation strips
      each part. */
  lemma {:induction false} StripConcat(a: string, b: string)
    ensures StripNonLowerAlnum(a + b) == StripNonLowerAlnum(a) + StripNonLowerAlnum(b)
  {
    if a == [] {
      assert a + b == b;
    } else {
      assert (a + b)[1..] == a[1..] + b;
      StripConcat(a[1..], b);
    }
  }

  /** One character survives stripping exactly when it is in `[a-z0-9]`. */
  lemma StripOne(c: char)
    ensures StripNonLowerAlnum([c]) == if IsLowerAlnum(c) then [c] else []
  {
    assert [c][1..] == [];
  }

  /** The alias of a concatenation is the concatenation of the aliases. */
  lemma AliasConcat(a: string, b: string)
    ensures Alias(a + b) == Alias(a) + Alias(b)
  {
    assert Lowercase(a + b) == Lowercase(a) + Lowercase(b);
    StripConcat(Lowercase(a), Lowercase(b));
  }

  /** A letter of the input appears in the alias lowercased, a digit as it
      is, and any other character is dropped. With `AliasConcat` this fixes
      the alias of every input, character by character and in order. */
  lemma AliasOne(c: char)
    ensures Alias([c]) == if IsAsciiLetter(c) || IsAsciiDigit(c) then [ToLower(c)] else []
  {
    assert Lowercase([c]) == [ToLower(c)];
    StripOne(ToLower(c));
  }

  /** Stripping keeps every character that is already in `[a-z0-9]`. */
  lemma {:induction false} StripKeepsLowerAlnum(s: string)
    requires forall i :: 0 <= i < |s| ==> IsLowerAlnum(s[i])
    ensures StripNonLowerAlnum(s) == s
  {
    if s != [] {
      StripKeepsLowerAlnum(s[1..]);
    }
  }

  /** An alias is its own alias. */
  lemma AliasIdempotent(s: string)
    ensures Alias(Alias(s)) == Alias(s)
  {
    var a := Alias(s);
    assert Lowercase(a) == a;
    StripKeepsLowerAlnum(a);
  }

  /** Normalising the alias of a lettered input gives the same alias: the
      alias is a stable key. */
  lemma NormalizeAliasStable(s: string, util: PhoneNumberUtil)
    requires ContainsAsciiLetter(s)
    ensures NormalizePhoneNumber(NormalizePhoneNumber(Some(s), util), util) == NormalizePhoneNumber(Some(s), util)
  {
    AliasKeepsLetter(s);
    AliasIdempotent(s);
  }
}
