/** Argon2id password hashes as PHC strings (authx/argon2id.go).

    The key derivation itself is a parameter: any function whose result has
    the requested length (section 3.1 of RFC 9106). */
module Argon2id {
  import opened Text
  import opened Base64

  type uint8 = n: int | 0 <= n < 0x100
  type uint32 = n: int | 0 <= n < 0x1_0000_0000

  const VERSION := 19

  datatype Options = Options(memory: uint32, iterations: uint32, parallelism: uint8,
                             saltLength: uint32, keyLength: uint32)

  datatype Parsed = Parsed(options: Options, salt: seq<byte>, key: seq<byte>)

  datatype Error =
    | MalformedHash
    | MalformedParameter(name: string)
    | UnsupportedVersion(version: nat)
    | MalformedParameters
    | ParameterOverflow
    | InvalidSalt
    | InvalidKey
    | InvalidOptions

  /** password, salt, iterations, memory, parallelism and key length to key */
  type Kdf = (seq<byte>, seq<byte>, uint32, uint32, uint8, uint32) -> seq<byte>

  /** The derived key always has the requested length. */
  ghost predicate IsKdf(kdf: Kdf) {
    forall password, salt, t, m, p, length ::
      |kdf(password, salt, t, m, p, length)| == length
  }

  function Defaults(o: Options): Options {
    Options(if o.memory == 0 then 64 * 1024 else o.memory,
            if o.iterations == 0 then 3 else o.iterations,
            if o.parallelism == 0 then 2 else o.parallelism,
            if o.saltLength == 0 then 16 else o.saltLength,
            if o.keyLength == 0 then 32 else o.keyLength)
  }

  predicate ValidOptions(o: Options) {
    && o.memory >= 8 * o.parallelism
    && o.memory <= 256 * 1024
    && 1 <= o.iterations <= 10
    && 1 <= o.parallelism <= 16
    && 8 <= o.saltLength <= 64
    && 16 <= o.keyLength <= 64
  }

  /** NewArgon2idHasher: the options a hasher ends up with. */
  function NewHasher(o: Options): Result<Options, Error> {
    if ValidOptions(Defaults(o)) then Ok(Defaults(o)) else Err(InvalidOptions)
  }

  /** Fields that are set are kept, the defaults alone make a hasher, and a hasher's options make the same hasher
      again. */
  lemma DefaultsFill(o: Options)
    ensures NewHasher(Options(0, 0, 0, 0, 0)) == Ok(Options(65536, 3, 2, 16, 32))
    ensures o.memory != 0 ==> Defaults(o).memory == o.memory
    ensures o.iterations != 0 ==> Defaults(o).iterations == o.iterations
    ensures o.parallelism != 0 ==> Defaults(o).parallelism == o.parallelism
    ensures o.saltLength != 0 ==> Defaults(o).saltLength == o.saltLength
    ensures o.keyLength != 0 ==> Defaults(o).keyLength == o.keyLength
    ensures NewHasher(o).Ok? ==> NewHasher(NewHasher(o).value) == NewHasher(o)
  {
  }

  /** A hasher is made exactly when its options are within bounds once the defaults stand for the zeros. */
  lemma HasherBounds(o: Options)
    ensures var memory := if o.memory == 0 then 65536 else o.memory;
            var iterations := if o.iterations == 0 then 3 else o.iterations;
            var parallelism := if o.parallelism == 0 then 2 else o.parallelism;
            var saltLength := if o.saltLength == 0 then 16 else o.saltLength;
            var keyLength := if o.keyLength == 0 then 32 else o.keyLength;
            NewHasher(o) ==
            if 8 * parallelism <= memory <= 262144 && iterations <= 10 && parallelism <= 16
               && 8 <= saltLength <= 64 && 16 <= keyLength <= 64
            then Ok(Options(memory, iterations, parallelism, saltLength, keyLength))
            else Err(InvalidOptions)
  {
  }

  // ------------------------------------------------------------------
  // Printing
  // ------------------------------------------------------------------

  function ParameterFields(o: Options): seq<string> {
    ["m=" + Decimal(o.memory), "t=" + Decimal(o.iterations), "p=" + Decimal(o.parallelism)]
  }

  function HashFields(o: Options, salt: seq<byte>, key: seq<byte>): seq<string> {
    ["", "argon2id", "v=" + Decimal(VERSION), Join(ParameterFields(o), ","), EncodeRaw(salt), EncodeRaw(key)]
  }

  /** $argon2id$v=..$m=..,t=..,p=..$salt$key */
  function Format(o: Options, salt: seq<byte>, key: seq<byte>): string {
    Join(HashFields(o, salt, key), "$")
  }

  /** Hash, with the random salt as a parameter. */
  function Hash(kdf: Kdf, hasher: Options, password: seq<byte>, salt: seq<byte>): string {
    Format(hasher, salt,
           kdf(password, salt, hasher.iterations, hasher.memory, hasher.parallelism, hasher.keyLength))
  }

  // ------------------------------------------------------------------
  // Parsing
  // ------------------------------------------------------------------

  /** strconv.ParseUint(s, 10, 64): digits only, leading zeros allowed, no overflow. */
  function ParseUint64(s: string): Option<nat> {
    if s != "" && AllDigits(s) && Value(s) < 0x1_0000_0000_0000_0000 then Some(Value(s)) else None
  }

  function ParsePHCValue(value: string, name: string): Result<nat, Error> {
    var prefix := name + "=";
    if !HasPrefix(value, prefix) || |value| == |prefix| then Err(MalformedParameter(name))
    else
      match ParseUint64(value[|prefix|..])
      case None => Err(MalformedParameter(name))
      case Some(n) => Ok(n)
  }

  function ParseParameters(value: string): Result<Options, Error> {
    var parts := Split(value, ',');
    if |parts| != 3 then Err(MalformedParameters) else
    match ParsePHCValue(parts[0], "m")
    case Err(e) => Err(e)
    case Ok(memory) =>
      match ParsePHCValue(parts[1], "t")
      case Err(e) => Err(e)
      case Ok(iterations) =>
        match ParsePHCValue(parts[2], "p")
        case Err(e) => Err(e)
        case Ok(parallelism) =>
          if memory > 0xFFFF_FFFF || iterations > 0xFFFF_FFFF || parallelism > 0xFF then
            Err(ParameterOverflow)
          else
            Ok(Options(memory, iterations, parallelism, 0, 0))
  }

  /** The narrowing conversion uint32(n). */
  function Uint32(n: nat): uint32 {
    n % 0x1_0000_0000
  }

  function ParseHash(encoded: string): Result<Parsed, Error> {
    var parts := Split(encoded, '$');
    if |parts| != 6 || parts[0] != "" || parts[1] != "argon2id" then Err(MalformedHash) else
    match ParsePHCValue(parts[2], "v")
    case Err(e) => Err(e)
    case Ok(version) =>
      if version != VERSION then Err(UnsupportedVersion(version)) else
      match ParseParameters(parts[3])
      case Err(e) => Err(e)
      case Ok(parameters) =>
        match DecodeString(parts[4])
        case None => Err(InvalidSalt)
        case Some(salt) =>
          match DecodeString(parts[5])
          case None => Err(InvalidKey)
          case Some(key) =>
            var options := parameters.(saltLength := Uint32(|salt|), keyLength := Uint32(|key|));
            if !ValidOptions(options) then Err(InvalidOptions)
            else Ok(Parsed(options, salt, key))
  }

  /** Verify: the options of the hasher it is called on play no part. */
  function Verify(kdf: Kdf, hasher: Options, password: seq<byte>, encoded: string): Result<bool, Error> {
    match ParseHash(encoded)
    case Err(e) => Err(e)
    case Ok(p) =>
      var key := kdf(password, p.salt, p.options.iterations, p.options.memory, p.options.parallelism, Uint32(|p.key|));
      Ok(key == p.key)
  }

  // ------------------------------------------------------------------
  // Parsing undoes printing
  // ------------------------------------------------------------------

  lemma FreeOf(s: string, c: char)
    requires AllBase64(s) || AllDigits(s)
    requires c == '$' || c == ',' || c == '\r' || c == '\n'
    ensures Free(s, c)
  {
  }

  lemma ParseNumeral(name: string, n: nat)
    requires n < 0x1_0000_0000_0000_0000
    ensures ParsePHCValue(name + "=" + Decimal(n), name) == Ok(n)
  {
    var prefix := name + "=";
    var value := prefix + Decimal(n);
    ValueDecimal(n);
    assert value[..|prefix|] == prefix && value[|prefix|..] == Decimal(n);
  }

  lemma ParseFormattedParameters(o: Options)
    ensures ParseParameters(Join(ParameterFields(o), ",")) == Ok(Options(o.memory, o.iterations, o.parallelism, 0, 0))
  {
    var fields := ParameterFields(o);
    FieldsFree(o, ',');
    ParseNumeral("m", o.memory);
    ParseNumeral("t", o.iterations);
    ParseNumeral("p", o.parallelism);
    FieldsAre(o);
    hide ParsePHCValue, Split, Join, Decimal, ParameterFields, Free;
    SplitJoin(fields, ',');
  }

  lemma FieldsAre(o: Options)
    ensures ParameterFields(o)
            == ["m" + "=" + Decimal(o.memory), "t" + "=" + Decimal(o.iterations), "p" + "=" + Decimal(o.parallelism)]
  {
    hide Decimal;
    assert "m" + "=" == "m=" && "t" + "=" == "t=" && "p" + "=" == "p=";
  }

  lemma FieldsFree(o: Options, c: char)
    requires c == '$' || c == ','
    ensures forall i :: 0 <= i < |ParameterFields(o)| ==> Free(ParameterFields(o)[i], c)
  {
    FreeOf(Decimal(o.memory), c);
    FreeOf(Decimal(o.iterations), c);
    FreeOf(Decimal(o.parallelism), c);
    hide Decimal;
  }

  lemma ParametersFree(o: Options)
    ensures Free(Join(ParameterFields(o), ","), '$')
  {
    FieldsFree(o, '$');
    assert Free(",", '$');
    hide Join, Free, ParameterFields;
    JoinFree(ParameterFields(o), ",", '$');
  }

  lemma SplitFormat(o: Options, salt: seq<byte>, key: seq<byte>)
    ensures Split(Format(o, salt, key), '$') == HashFields(o, salt, key)
  {
    EncodeRawShape(salt);
    EncodeRawShape(key);
    FreeOf(EncodeRaw(salt), '$');
    FreeOf(EncodeRaw(key), '$');
    FreeOf(Decimal(VERSION), '$');
    ParametersFree(o);
    hide EncodeRaw, Join, Split, Decimal, ParameterFields;
    SplitJoin(HashFields(o, salt, key), '$');
  }

  lemma DecodeEncoded(b: seq<byte>)
    ensures DecodeString(EncodeRaw(b)) == Some(b)
  {
    EncodeRawShape(b);
    FreeOf(EncodeRaw(b), '\r');
    FreeOf(EncodeRaw(b), '\n');
    DecodeEncodeRaw(b);
    hide EncodeRaw, DecodeRaw, StripBreaks;
    StripOneLine(EncodeRaw(b));
  }

  /** The options that the parser reconstructs from a printed string. */
  function Reconstructed(o: Options, salt: seq<byte>, key: seq<byte>): Options {
    o.(saltLength := Uint32(|salt|), keyLength := Uint32(|key|))
  }

  /** Whatever is printed parses back to itself, exactly when the reconstructed options are within bounds. */
  lemma ParseFormat(o: Options, salt: seq<byte>, key: seq<byte>)
    ensures ParseHash(Format(o, salt, key)) ==
            if ValidOptions(Reconstructed(o, salt, key)) then Ok(Parsed(Reconstructed(o, salt, key), salt, key))
            else Err(InvalidOptions)
  {
    SplitFormat(o, salt, key);
    ParseNumeral("v", VERSION);
    ParseFormattedParameters(o);
    DecodeEncoded(salt);
    DecodeEncoded(key);
    hide Split, Format, Join, ParsePHCValue, ParseParameters, DecodeString, EncodeRaw, Decimal, ValidOptions;
    assert HashFields(o, salt, key)[2] == "v" + "=" + Decimal(VERSION);
  }

  /** A hasher's own strings parse back to its options, the salt and the key. */
  lemma ParseHashed(kdf: Kdf, opts: Options, password: seq<byte>, salt: seq<byte>)
    requires IsKdf(kdf)
    requires NewHasher(opts).Ok?
    requires |salt| == NewHasher(opts).value.saltLength
    ensures var h := NewHasher(opts).value;
            ParseHash(Hash(kdf, h, password, salt)) ==
            Ok(Parsed(h, salt, kdf(password, salt, h.iterations, h.memory, h.parallelism, h.keyLength)))
  {
    hide ParseHash, Format, Defaults;
    var h := NewHasher(opts).value;
    var key := kdf(password, salt, h.iterations, h.memory, h.parallelism, h.keyLength);
    ParseFormat(h, salt, key);
    assert |key| == h.keyLength;
    assert Uint32(|key|) == h.keyLength && Uint32(|salt|) == h.saltLength;
  }

  /** Any hasher verifies any other hasher's string, and accepts exactly the passwords that derive the same key. */
  lemma VerifyHashed(kdf: Kdf, opts: Options, other: Options, password: seq<byte>, guess: seq<byte>, salt: seq<byte>)
    requires IsKdf(kdf)
    requires NewHasher(opts).Ok?
    requires |salt| == NewHasher(opts).value.saltLength
    ensures var h := NewHasher(opts).value;
            Verify(kdf, other, guess, Hash(kdf, h, password, salt)) ==
            Ok(kdf(guess, salt, h.iterations, h.memory, h.parallelism, h.keyLength) ==
               kdf(password, salt, h.iterations, h.memory, h.parallelism, h.keyLength))
    ensures Verify(kdf, other, password, Hash(kdf, NewHasher(opts).value, password, salt)) == Ok(true)
  {
    ParseHashed(kdf, opts, password, salt);
    hide ParseHash, Hash;
  }

  // ------------------------------------------------------------------
  // The strings themselves
  // ------------------------------------------------------------------

  lemma VersionField()
    ensures "v=" + Decimal(VERSION) == "v=19"
  {
    assert Decimal(19) == Decimal(1) + Decimal(9);
    assert Decimal(1) == "1" && Decimal(9) == "9";
  }

  /** What is printed, character by character. */
  lemma FormatText(o: Options, salt: seq<byte>, key: seq<byte>)
    ensures Format(o, salt, key) ==
            "$argon2id$v=19$m=" + Decimal(o.memory) + ",t=" + Decimal(o.iterations) + ",p=" + Decimal(o.parallelism)
            + "$" + EncodeRaw(salt) + "$" + EncodeRaw(key)
    ensures HasPrefix(Format(o, salt, key), "$argon2id$v=19$m=")
  {
    VersionField();
    ParametersText(o);
    hide EncodeRaw, Decimal;
    var m, t, p := Decimal(o.memory), Decimal(o.iterations), Decimal(o.parallelism);
    var a, b := EncodeRaw(salt), EncodeRaw(key);
    var parameters := Join(ParameterFields(o), ",");
    JoinSix("", "argon2id", "v=19", parameters, a, b, "$");
    hide Join, ParameterFields;
    assert "" + "$" + "argon2id" + "$" + "v=19" + "$" == "$argon2id$v=19$";
    FrontText(parameters, m, t, p);
  }

  lemma FrontText(parameters: string, m: string, t: string, p: string)
    requires parameters == "m=" + m + ",t=" + t + ",p=" + p
    ensures "$argon2id$v=19$" + parameters == "$argon2id$v=19$m=" + m + ",t=" + t + ",p=" + p
  {
    assert "$argon2id$v=19$" + "m=" == "$argon2id$v=19$m=";
    Regroup("$argon2id$v=19$", "m=", m, ",t=", t, ",p=", p);
  }

  lemma Regroup(x: string, a: string, m: string, b: string, t: string, c: string, p: string)
    ensures x + (a + m + b + t + c + p) == x + a + m + b + t + c + p
  {
  }

  lemma ParametersText(o: Options)
    ensures Join(ParameterFields(o), ",") ==
            "m=" + Decimal(o.memory) + ",t=" + Decimal(o.iterations) + ",p=" + Decimal(o.parallelism)
  {
    hide Decimal;
    var m, t, p := Decimal(o.memory), Decimal(o.iterations), Decimal(o.parallelism);
    JoinThree("m=" + m, "t=" + t, "p=" + p, ",");
    assert "," + "t=" == ",t=" && "," + "p=" == ",p=";
    hide Join;
    var front := "m=" + m;
    assert front + "," + ("t=" + t) == front + ",t=" + t;
    var more := front + ",t=" + t;
    assert more + "," + ("p=" + p) == more + ",p=" + p;
  }

  lemma JoinThree(a: string, b: string, c: string, sep: string)
    ensures Join([a, b, c], sep) == a + sep + b + sep + c
  {
    assert [a, b, c][1..] == [b, c] && [b, c][1..] == [c];
    assert Join([b, c], sep) == b + sep + Join([c], sep);
    assert a + sep + (b + sep + c) == a + sep + b + sep + c;
  }

  lemma JoinSix(a: string, b: string, c: string, d: string, e: string, f: string, sep: string)
    ensures Join([a, b, c, d, e, f], sep) == a + sep + b + sep + c + sep + d + sep + e + sep + f
  {
    assert [a, b, c, d, e, f][1..] == [b, c, d, e, f] && [b, c, d, e, f][1..] == [c, d, e, f];
    assert [c, d, e, f][1..] == [d, e, f];
    JoinThree(d, e, f, sep);
    assert Join([c, d, e, f], sep) == c + sep + Join([d, e, f], sep);
    assert Join([b, c, d, e, f], sep) == b + sep + Join([c, d, e, f], sep);
  }

  /** A letter, an equals sign, and digits. */
  predicate IsNumeral(field: string, letter: char) {
    |field| > 2 && field[0] == letter && field[1] == '=' && AllDigits(field[2..])
  }

  function NumberIn(field: string): nat
    requires |field| > 2 && AllDigits(field[2..])
  {
    Value(field[2..])
  }

  lemma NumeralParses(field: string, letter: char)
    ensures ParsePHCValue(field, [letter]) ==
            if IsNumeral(field, letter) && NumberIn(field) < 0x1_0000_0000_0000_0000 then Ok(NumberIn(field))
            else Err(MalformedParameter([letter]))
  {
    var prefix := [letter] + "=";
    assert prefix == [letter, '='];
    if |field| >= 2 {
      assert field[..2] == [field[0], field[1]];
    }
    hide Value;
  }

  /** m=, t= and p=, with the numbers that validation lets through. */
  predicate GoodParameters(parts: seq<string>) {
    && |parts| == 3 && IsNumeral(parts[0], 'm') && IsNumeral(parts[1], 't') && IsNumeral(parts[2], 'p')
    && 8 * NumberIn(parts[2]) <= NumberIn(parts[0]) <= 262144
    && 1 <= NumberIn(parts[1]) <= 10 && 1 <= NumberIn(parts[2]) <= 16
  }

  lemma ParametersParse(value: string)
    ensures var parts := Split(value, ','); var r := ParseParameters(value);
            && (GoodParameters(parts) <==>
                r.Ok? && 8 * r.value.parallelism <= r.value.memory <= 262144
                && 1 <= r.value.iterations <= 10 && 1 <= r.value.parallelism <= 16)
            && (GoodParameters(parts) ==>
                  r == Ok(Options(NumberIn(parts[0]), NumberIn(parts[1]), NumberIn(parts[2]), 0, 0)))
  {
    var parts := Split(value, ',');
    if |parts| == 3 {
      NumeralParses(parts[0], 'm');
      NumeralParses(parts[1], 't');
      NumeralParses(parts[2], 'p');
    }
    hide Split, NumberIn, IsNumeral, ParsePHCValue;
  }

  /** The strings that parse: six fields, an empty one, argon2id, version 19, good parameters, and the base64 of a
      salt and of a key whose lengths, as 32-bit numbers, are within bounds. */
  predicate WellFormed(fields: seq<string>) {
    && |fields| == 6 && fields[0] == "" && fields[1] == "argon2id"
    && IsNumeral(fields[2], 'v') && NumberIn(fields[2]) == 19
    && GoodParameters(Split(fields[3], ','))
    && DecodeString(fields[4]).Some? && 8 <= |DecodeString(fields[4]).value| % 0x1_0000_0000 <= 64
    && DecodeString(fields[5]).Some? && 16 <= |DecodeString(fields[5]).value| % 0x1_0000_0000 <= 64
  }

  /** Exactly those parse, to what their fields say. */
  lemma ParsesExactly(encoded: string)
    ensures ParseHash(encoded).Ok? <==> WellFormed(Split(encoded, '$'))
    ensures ParseHash(encoded).Ok? ==>
              var fields := Split(encoded, '$');
              var parameters := Split(fields[3], ',');
              var p := ParseHash(encoded).value;
              && p.options.memory == NumberIn(parameters[0]) && p.options.iterations == NumberIn(parameters[1])
              && p.options.parallelism == NumberIn(parameters[2])
              && Some(p.salt) == DecodeString(fields[4]) && Some(p.key) == DecodeString(fields[5])
  {
    var fields := Split(encoded, '$');
    if |fields| == 6 {
      NumeralParses(fields[2], 'v');
      ParametersParse(fields[3]);
    }
    hide Split, NumberIn, IsNumeral, ParsePHCValue, DecodeString, ParseParameters, GoodParameters;
  }

  /** Any other version is refused by its number. */
  lemma OtherVersionsRefused(encoded: string)
    requires var fields := Split(encoded, '$');
             && |fields| == 6 && fields[0] == "" && fields[1] == "argon2id" && IsNumeral(fields[2], 'v')
             && NumberIn(fields[2]) != 19 && NumberIn(fields[2]) < 0x1_0000_0000_0000_0000
    ensures ParseHash(encoded) == Err(UnsupportedVersion(NumberIn(Split(encoded, '$')[2])))
  {
    NumeralParses(Split(encoded, '$')[2], 'v');
    hide Split, NumberIn, IsNumeral, ParsePHCValue, DecodeString, ParseParameters;
  }

  // ------------------------------------------------------------------
  // Printing undoes parsing, on canonical strings and no others
  // ------------------------------------------------------------------

  /** The name=value field is written with no superfluous leading zero. */
  predicate CanonicalNumeral(field: string, name: string) {
    |field| > |name| + 1 && NoLeadingZero(field[|name| + 1..])
  }

  predicate CanonicalParameters(value: string) {
    var parts := Split(value, ',');
    && |parts| == 3
    && CanonicalNumeral(parts[0], "m") && CanonicalNumeral(parts[1], "t") && CanonicalNumeral(parts[2], "p")
  }

  /** The two liberties the parser takes are not used: leading zeros, and line breaks inside base64. */
  predicate Canonical(encoded: string) {
    var parts := Split(encoded, '$');
    |parts| == 6 && CanonicalNumeral(parts[2], "v") && CanonicalParameters(parts[3])
    && OneLine(parts[4]) && OneLine(parts[5])
  }

  lemma PrintNumeral(field: string, name: string)
    requires ParsePHCValue(field, name).Ok?
    ensures field == name + "=" + Decimal(ParsePHCValue(field, name).value) <==> CanonicalNumeral(field, name)
  {
    var prefix := name + "=";
    var digits := field[|prefix|..];
    assert field == prefix + digits;
    assert field[|name| + 1..] == digits;
    ValueDecimal(Value(digits));
    if NoLeadingZero(digits) {
      DecimalValue(digits);
    }
    var printed := prefix + Decimal(Value(digits));
    assert printed[|prefix|..] == Decimal(Value(digits));
  }

  lemma PrintParameters(value: string)
    requires ParseParameters(value).Ok?
    ensures value == Join(ParameterFields(ParseParameters(value).value), ",") <==> CanonicalParameters(value)
  {
    var parts := Split(value, ',');
    var o := ParseParameters(value).value;
    var fields := ParameterFields(o);
    PrintNumeral(parts[0], "m");
    PrintNumeral(parts[1], "t");
    PrintNumeral(parts[2], "p");
    FieldsAre(o);
    FieldsFree(o, ',');
    assert parts == fields <==> CanonicalParameters(value) by {
      hide Split, Decimal, CanonicalNumeral, ParameterFields, Free, Join;
      assert parts == fields <==> parts[0] == fields[0] && parts[1] == fields[1] && parts[2] == fields[2];
    }
    hide *;
    JoinSplit(value, ',');
    SplitJoin(fields, ',');
  }

  lemma PrintBytes(s: string)
    requires DecodeString(s).Some?
    ensures s == EncodeRaw(DecodeString(s).value) <==> OneLine(s)
  {
    EncodeDecodeRaw(StripBreaks(s));
    StripOneLine(s);
  }

  /** A parsed string prints back to itself if and only if it is canonical. */
  lemma FormatParsed(encoded: string)
    requires ParseHash(encoded).Ok?
    ensures var p := ParseHash(encoded).value;
            Format(p.options, p.salt, p.key) == encoded <==> Canonical(encoded)
  {
    var p := ParseHash(encoded).value;
    var parts := Split(encoded, '$');
    JoinSplit(encoded, '$');
    SplitFormat(p.options, p.salt, p.key);
    PrintNumeral(parts[2], "v");
    PrintParameters(parts[3]);
    PrintBytes(parts[4]);
    PrintBytes(parts[5]);
    assert ParameterFields(p.options) == ParameterFields(ParseParameters(parts[3]).value);
    hide Split, Join, ParsePHCValue, ParseParameters, DecodeString, EncodeRaw, Decimal, ParameterFields,
      CanonicalParameters, CanonicalNumeral, OneLine;
    var fields := HashFields(p.options, p.salt, p.key);
    assert encoded == Format(p.options, p.salt, p.key) <==> parts == fields;
    assert parts == fields
           <==> (parts[2] == fields[2] && parts[3] == fields[3] && parts[4] == fields[4] && parts[5] == fields[5]);
  }

  // ------------------------------------------------------------------
  // Bounds, and the narrowing of the lengths
  // ------------------------------------------------------------------

  lemma {:induction false} PartShorter(s: string, sep: char, i: nat)
    requires i < |Split(s, sep)|
    ensures |Split(s, sep)[i]| <= |s|
  {
    if s != "" {
      var rest := Split(s[1..], sep);
      if s[0] == sep {
        if i > 0 { PartShorter(s[1..], sep, i - 1); }
      } else {
        PartShorter(s[1..], sep, i);
      }
    }
  }

  /** The recorded lengths are the true ones, and the true ones are within bounds. */
  predicate WithinBounds(p: Parsed) {
    && p.options.saltLength == |p.salt| && p.options.keyLength == |p.key|
    && 8 <= |p.salt| <= 64 && 16 <= |p.key| <= 64
    && 1 <= p.options.iterations <= 10 && 1 <= p.options.parallelism <= 16
    && 8 * p.options.parallelism <= p.options.memory <= 262144
  }

  lemma ParsedFields(encoded: string)
    requires ParseHash(encoded).Ok?
    ensures var p := ParseHash(encoded).value;
            && ValidOptions(p.options) && p.options == Reconstructed(p.options, p.salt, p.key)
            && |Split(encoded, '$')| == 6
            && DecodeString(Split(encoded, '$')[4]) == Some(p.salt)
            && DecodeString(Split(encoded, '$')[5]) == Some(p.key)
  {
  }

  /** The number of base64 characters in a field: those that are no line breaks. */
  function Characters(encoded: string, field: nat): nat {
    if field < |Split(encoded, '$')| then |StripBreaks(Split(encoded, '$')[field])| else 0
  }

  /** The fewest characters that 2^32 bytes take. */
  const WRAPS := 5_726_623_062

  lemma LengthByCharacters(s: string)
    requires DecodeString(s).Some?
    ensures |DecodeString(s).value| < 0x1_0000_0000 <==> |StripBreaks(s)| < WRAPS
  {
    EncodeDecodeRaw(StripBreaks(s));
    EncodeRawShape(DecodeString(s).value);
    hide DecodeRaw, EncodeRaw, StripBreaks, AllBase64;
  }

  lemma CharactersAtMost(encoded: string, field: nat)
    ensures Characters(encoded, field) <= |encoded|
  {
    hide Split, StripBreaks;
    if field < |Split(encoded, '$')| {
      PartShorter(encoded, '$', field);
      StripShorter(Split(encoded, '$')[field]);
    }
  }

  /** A parsed hash is within bounds, with lossless casts, if and only if the base64 of neither field is long enough
      for 2^32 bytes, as that of no string shorter than that is. */
  lemma ParsedWithinBounds(encoded: string)
    requires ParseHash(encoded).Ok?
    ensures WithinBounds(ParseHash(encoded).value)
            <==> Characters(encoded, 4) < WRAPS && Characters(encoded, 5) < WRAPS
    ensures |encoded| < WRAPS ==> WithinBounds(ParseHash(encoded).value)
  {
    ParsedFields(encoded);
    hide *;
    var p := ParseHash(encoded).value;
    BoundsByLength(p);
    LengthByCharacters(Split(encoded, '$')[4]);
    LengthByCharacters(Split(encoded, '$')[5]);
    CharactersOf(encoded, 4);
    CharactersOf(encoded, 5);
    CharactersAtMost(encoded, 4);
    CharactersAtMost(encoded, 5);
  }

  lemma CharactersOf(encoded: string, field: nat)
    requires field < |Split(encoded, '$')|
    ensures Characters(encoded, field) == |StripBreaks(Split(encoded, '$')[field])|
  {
    hide Split, StripBreaks;
  }

  /** The narrowing casts lose nothing exactly below 2^32, and validated lengths are then the true ones. */
  lemma BoundsByLength(p: Parsed)
    requires ValidOptions(p.options) && p.options == Reconstructed(p.options, p.salt, p.key)
    ensures WithinBounds(p) <==> |p.salt| < 0x1_0000_0000 && |p.key| < 0x1_0000_0000
  {
  }

  /** Beyond 2^32 bytes the conversion wraps: a salt of 2^32 + 8 bytes is taken for one of 8. */
  lemma LongSaltIsAccepted(salt: seq<byte>, key: seq<byte>)
    requires |salt| == 0x1_0000_0008 && |key| == 32
    ensures var p := ParseHash(Format(Options(65536, 3, 2, 16, 32), salt, key));
            p.Ok? && |p.value.salt| > 64 && p.value.options.saltLength == 8
  {
    hide ParseHash, Format;
    ParseFormat(Options(65536, 3, 2, 16, 32), salt, key);
  }
}
