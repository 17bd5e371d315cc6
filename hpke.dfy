/** The HPKE algorithm parameters of javax.crypto.spec.HPKEParameterSpec and
    the identifier record javax.crypto.hpke.SimpleId (RFC 9180).

    A parameter set is an immutable value: every `with*` builder returns a
    new value that differs from the receiver in its own fields only. A Java
    `null` argument is `None`; a byte array is the sequence of its octets, so
    the defensive copies the source makes are the identity here. */
module Hpke {
  import opened Bytes
  import opened Wrappers

  /** The largest algorithm identifier: identifiers are two-octet values. */
  const MAX_ID: int := 65535

  /** The minimum length, in octets, of an extractable pre-shared key
      (RFC 9180 section 5.1.2 asks for 32 octets of entropy). */
  const MIN_PSK_LENGTH: nat := 32

  predicate IdInRange(id: int) {
    0 <= id <= MAX_ID
  }

  // ---------------------------------------------------------------------
  // SimpleId

  /** `record SimpleId(int id)`: the one implementation of `Kem`, `Kdf` and
      `Aead` that `Kem.from`, `Kdf.from` and `Aead.from` create. */
  datatype SimpleId = SimpleId(id: int)

  datatype IdError = IdOutOfRange(id: int)

  /** The compact constructor: an identifier outside 0..65535 is rejected. */
  function NewSimpleId(id: int): (r: Result<SimpleId, IdError>)
    ensures r.Success? <==> IdInRange(id)
    ensures r.Success? ==> r.value.id == id
    ensures r.Failure? ==> r.error == IdOutOfRange(id)
  {
    if id < 0 || id > 65535 then Failure(IdOutOfRange(id)) else Success(SimpleId(id))
  }

  /** A record's equality: two constructed identifiers are equal exactly
      when they were built from the same number. */
  lemma SimpleIdEquality(a: int, b: int)
    requires NewSimpleId(a).Success? && NewSimpleId(b).Success?
    ensures NewSimpleId(a).value == NewSimpleId(b).value <==> a == b
  {
  }

  // ---------------------------------------------------------------------
  // Keys, held as opaque values

  /** A `SecretKey`: `format` is what `getFormat()` returns and `encoded`
      what `getEncoded()` returns; `handle` tells keys with equal contents apart. */
  datatype SecretKey = SecretKey(handle: nat, format: string, encoded: seq<byte>)

  /** An `AsymmetricKey`, of which nothing but its identity is used. */
  datatype AsymmetricKey = AsymmetricKey(handle: nat)

  /** ASCII case folding of one letter, as `equalsIgnoreCase` applies it. */
  function Upper(c: char): char {
    if 'a' <= c <= 'z' then (c as int - 32) as char else c
  }

  /** `"RAW".equalsIgnoreCase(format)`. */
  predicate IsRaw(format: string) {
    |format| == 3 && Upper(format[0]) == 'R' && Upper(format[1]) == 'A' && Upper(format[2]) == 'W'
  }

  // ---------------------------------------------------------------------
  // HPKEParameterSpec

  /** The eight final fields. `info` and `pskId` are never null (possibly
      empty); `psk`, `authKey` (the field `kS`) and `encapsulation` are
      `None` when not used. */
  datatype HpkeSpec = HpkeSpec(
    kemId: int, kdfId: int, aeadId: int,
    info: seq<byte>,
    psk: Option<SecretKey>, pskId: seq<byte>,
    authKey: Option<AsymmetricKey>,
    encapsulation: Option<seq<byte>>)

  /** Which algorithm a rejected identifier belongs to. */
  datatype Component = KemId | KdfId | AeadId

  /** The exceptions the factory and the builders throw. */
  datatype SpecError =
    | NullArgument                              // NullPointerException
    | InvalidId(component: Component, id: int)  // "Invalid kem_id: ..." and the like
    | InfoEmpty                                 // "info is empty"
    | PskIdEmpty                                // "psk_id is empty"
    | PskTooShort                               // "psk is too short"

  /** What every value the factory and the builders produce satisfies:
      identifiers in range, a pre-shared key exactly when there is a
      non-empty key identifier, and an extractable key of 32 octets or more. */
  predicate SpecValid(s: HpkeSpec) {
    IdInRange(s.kemId) && IdInRange(s.kdfId) && IdInRange(s.aeadId) &&
    (s.psk.None? <==> s.pskId == []) &&
    (s.psk.Some? && IsRaw(s.psk.value.format) ==> |s.psk.value.encoded| >= MIN_PSK_LENGTH)
  }

  /** `HPKEParameterSpec.of(kem, kdf, aead)`, each algorithm given by the
      value its `id()` returns (`None` for a null algorithm, which throws on
      the call to `id()`). The checks run in the order kem, kdf, aead. */
  function Of(kem: Option<int>, kdf: Option<int>, aead: Option<int>): (r: Result<HpkeSpec, SpecError>)
    ensures r.Success? <==> (kem.Some? && kdf.Some? && aead.Some? &&
      IdInRange(kem.value) && IdInRange(kdf.value) && IdInRange(aead.value))
    ensures r.Success? ==>
      SpecValid(r.value) &&
      r.value.kemId == kem.value && r.value.kdfId == kdf.value && r.value.aeadId == aead.value &&
      r.value.info == [] && r.value.pskId == [] &&
      r.value.psk.None? && r.value.authKey.None? && r.value.encapsulation.None?
    ensures r.Failure? && kem.Some? && !IdInRange(kem.value) ==> r.error == InvalidId(KemId, kem.value)
  {
    if kem.None? then Failure(NullArgument)
    else if kem.value < 0 || kem.value > 65535 then Failure(InvalidId(KemId, kem.value))
    else if kdf.None? then Failure(NullArgument)
    else if kdf.value < 0 || kdf.value > 65535 then Failure(InvalidId(KdfId, kdf.value))
    else if aead.None? then Failure(NullArgument)
    else if aead.value < 0 || aead.value > 65535 then Failure(InvalidId(AeadId, aead.value))
    else Success(HpkeSpec(kem.value, kdf.value, aead.value, [], None, [], None, None))
  }

  /** Every identifier a `SimpleId` accepts also passes the range checks of
      `of`, so `of(Kem.from(a), Kdf.from(b), Aead.from(c))` never throws once
      the three identifiers are built. */
  lemma SimpleIdsPassOf(kem: int, kdf: int, aead: int)
    requires NewSimpleId(kem).Success? && NewSimpleId(kdf).Success? && NewSimpleId(aead).Success?
    ensures var r := Of(Some(NewSimpleId(kem).value.id), Some(NewSimpleId(kdf).value.id), Some(NewSimpleId(aead).value.id));
      r.Success? && ModeOf(r.value) == Base
  {
  }

  /** `withInfo(info)`: a non-null, non-empty `info` replaces the old one. */
  function WithInfo(s: HpkeSpec, info: Option<seq<byte>>): (r: Result<HpkeSpec, SpecError>)
    ensures r.Success? <==> info.Some? && |info.value| > 0
    ensures r.Success? ==> r.value == s.(info := info.value)
    ensures info.None? ==> r == Failure(NullArgument)
    ensures info == Some([]) ==> r == Failure(InfoEmpty)
  {
    if info.None? then Failure(NullArgument)
    else if |info.value| == 0 then Failure(InfoEmpty)
    else Success(s.(info := info.value))
  }

  /** `withPsk(psk, psk_id)`: both must be non-null, the identifier
      non-empty, and a key whose format is RAW must encode to 32 octets or
      more; then the key and its identifier replace the old ones. */
  function WithPsk(s: HpkeSpec, psk: Option<SecretKey>, pskId: Option<seq<byte>>): (r: Result<HpkeSpec, SpecError>)
    ensures r.Success? <==>
      psk.Some? && pskId.Some? && |pskId.value| > 0 &&
      (IsRaw(psk.value.format) ==> |psk.value.encoded| >= MIN_PSK_LENGTH)
    ensures r.Success? ==> r.value == s.(psk := psk, pskId := pskId.value)
    ensures psk.None? || pskId.None? ==> r == Failure(NullArgument)
    ensures psk.Some? && pskId == Some([]) ==> r == Failure(PskIdEmpty)
    ensures psk.Some? && pskId.Some? && pskId.value != [] && r.Failure? ==> r.error == PskTooShort
  {
    if psk.None? || pskId.None? then Failure(NullArgument)
    else if |pskId.value| == 0 then Failure(PskIdEmpty)
    else if IsRaw(psk.value.format) && |psk.value.encoded| < 32 then Failure(PskTooShort)
    else Success(s.(psk := psk, pskId := pskId.value))
  }

  /** `withEncapsulation(encapsulation)`: any non-null array, even an empty one. */
  function WithEncapsulation(s: HpkeSpec, encapsulation: Option<seq<byte>>): (r: Result<HpkeSpec, SpecError>)
    ensures r.Success? <==> encapsulation.Some?
    ensures r.Success? ==> r.value == s.(encapsulation := encapsulation)
    ensures r.Failure? ==> r.error == NullArgument
  {
    if encapsulation.None? then Failure(NullArgument)
    else Success(s.(encapsulation := encapsulation))
  }

  /** `withAuthKey(kS)`: any non-null key; whether the KEM supports the
      authenticated modes is not checked here. */
  function WithAuthKey(s: HpkeSpec, kS: Option<AsymmetricKey>): (r: Result<HpkeSpec, SpecError>)
    ensures r.Success? <==> kS.Some?
    ensures r.Success? ==> r.value == s.(authKey := kS)
    ensures r.Failure? ==> r.error == NullArgument
  {
    if kS.None? then Failure(NullArgument) else Success(s.(authKey := kS))
  }

  /** The accessors `info()` and `psk_id()` return copies of never-null
      arrays; `encapsulation()` returns a copy or null. Copies of a value are
      the value itself. */
  function Info(s: HpkeSpec): (r: seq<byte>)
    ensures r == s.info
  {
    s.info
  }

  function PskId(s: HpkeSpec): (r: seq<byte>)
    ensures r == s.pskId
  {
    s.pskId
  }

  function Encapsulation(s: HpkeSpec): (r: Option<seq<byte>>)
    ensures r == s.encapsulation
  {
    s.encapsulation
  }

  // ---------------------------------------------------------------------
  // Modes (RFC 9180 section 5)

  datatype Mode = Base | Psk | Auth | AuthPsk

  /** The mode `toString` reports, decided by which of the pre-shared key
      and the authentication key are set. */
  function ModeOf(s: HpkeSpec): (m: Mode)
    ensures m == Base <==> s.psk.None? && s.authKey.None?
    ensures m == Auth <==> s.psk.None? && s.authKey.Some?
    ensures m == Psk <==> s.psk.Some? && s.authKey.None?
    ensures m == AuthPsk <==> s.psk.Some? && s.authKey.Some?
  {
    if s.psk.None? then (if s.authKey.None? then Base else Auth)
    else (if s.authKey.None? then Psk else AuthPsk)
  }

  /** The name `toString` prints for a mode. */
  function ModeName(m: Mode): (name: string)
    ensures |name| >= 8 && name[..5] == "mode_"
  {
    match m
    case Base => "mode_base"
    case Auth => "mode_auth"
    case Psk => "mode_psk"
    case AuthPsk => "mode_auth_psk"
  }

  /** Distinct modes print distinctly: the printed name identifies the mode. */
  lemma ModeNameInjective(m: Mode, n: Mode)
    ensures ModeName(m) == ModeName(n) <==> m == n
  {
    if m != n {
      match m {
        case Base => assert ModeName(n)[5] != 'b' || ModeName(n) != "mode_base";
        case Auth => assert ModeName(n) != "mode_auth";
        case Psk => assert ModeName(n)[5] != 'p' || ModeName(n) != "mode_psk";
        case AuthPsk => assert ModeName(n) != "mode_auth_psk";
      }
    }
  }

  // ---------------------------------------------------------------------
  // Chains of builder calls

  /** One builder call with its arguments. */
  datatype Step =
    | SetInfo(info: Option<seq<byte>>)
    | SetPsk(psk: Option<SecretKey>, pskId: Option<seq<byte>>)
    | SetEncapsulation(encapsulation: Option<seq<byte>>)
    | SetAuthKey(kS: Option<AsymmetricKey>)

  function Apply(s: HpkeSpec, step: Step): Result<HpkeSpec, SpecError> {
    match step
    case SetInfo(info) => WithInfo(s, info)
    case SetPsk(psk, pskId) => WithPsk(s, psk, pskId)
    case SetEncapsulation(e) => WithEncapsulation(s, e)
    case SetAuthKey(kS) => WithAuthKey(s, kS)
  }

  /** `s.withX(...).withY(...)...`: the calls in order, stopping at the first throw. */
  function Build(s: HpkeSpec, steps: seq<Step>): Result<HpkeSpec, SpecError>
    decreases |steps|
  {
    if steps == [] then Success(s)
    else match Apply(s, steps[0])
      case Failure(e) => Failure(e)
      case Success(t) => Build(t, steps[1..])
  }

  /** Each builder keeps the invariant of the values it is applied to. */
  lemma ApplyKeepsValid(s: HpkeSpec, step: Step)
    requires SpecValid(s)
    ensures Apply(s, step).Success? ==> SpecValid(Apply(s, step).value)
  {
  }

  /** A chain of builder calls keeps the invariant, never changes the
      algorithm identifiers, has a pre-shared key exactly when it started
      with one or set one, has an authentication key likewise, and has an
      encapsulation (null from `encapsulation()` otherwise) exactly when it
      started with one or set one. */
  lemma {:induction false} BuildProperties(s: HpkeSpec, steps: seq<Step>)
    requires SpecValid(s)
    ensures var r := Build(s, steps);
      r.Success? ==>
        SpecValid(r.value) &&
        r.value.kemId == s.kemId && r.value.kdfId == s.kdfId && r.value.aeadId == s.aeadId &&
        (r.value.psk.Some? <==> s.psk.Some? || exists i :: 0 <= i < |steps| && steps[i].SetPsk?) &&
        (r.value.authKey.Some? <==> s.authKey.Some? || exists i :: 0 <= i < |steps| && steps[i].SetAuthKey?) &&
        (r.value.encapsulation.Some? <==>
          s.encapsulation.Some? || exists i :: 0 <= i < |steps| && steps[i].SetEncapsulation?)
    decreases |steps|
  {
    if steps != [] {
      ApplyKeepsValid(s, steps[0]);
      var a := Apply(s, steps[0]);
      if a.Success? {
        BuildProperties(a.value, steps[1..]);
        var r := Build(s, steps);
        if r.Success? {
          assert r == Build(a.value, steps[1..]);
          forall i | 0 < i < |steps|
            ensures steps[i] == steps[1..][i - 1]
          {
          }
        }
      }
    }
  }

  /** The mode of a parameter set built from `of` by builder calls: base
      unless a pre-shared key or an authentication key was set. */
  lemma BuiltMode(kem: int, kdf: int, aead: int, steps: seq<Step>)
    requires Of(Some(kem), Some(kdf), Some(aead)).Success?
    ensures var r := Build(Of(Some(kem), Some(kdf), Some(aead)).value, steps);
      r.Success? ==>
        var psk := exists i :: 0 <= i < |steps| && steps[i].SetPsk?;
        var auth := exists i :: 0 <= i < |steps| && steps[i].SetAuthKey?;
        ModeOf(r.value) == (if !psk && !auth then Base else if !psk then Auth else if !auth then Psk else AuthPsk)
  {
    BuildProperties(Of(Some(kem), Some(kdf), Some(aead)).value, steps);
  }

  // ---------------------------------------------------------------------
  // bytesToString

  /** The digit `HexFormat.of()` writes for a nibble: lower-case. */
  function HexChar(n: nat): char
    requires n < 16
  {
    if n < 10 then ('0' as int + n) as char else ('a' as int + n - 10) as char
  }

  /** `HexFormat.of().formatHex(input)`: two digits per octet, high nibble first. */
  function Hex(input: seq<byte>): (h: string)
    ensures |h| == 2 * |input|
  {
    if input == [] then []
    else [HexChar(input[0] / 16), HexChar(input[0] % 16)] + Hex(input[1..])
  }

  /** An octet `bytesToString` shows as text: one whose signed value lies in
      0x20..0x7E and is not `"`. */
  predicate Printable(b: byte) {
    !(Signed(b) < 0x20 || Signed(b) > 0x7E || Signed(b) == '"' as int)
  }

  /** The early-returning search of `bytesToString`: some octet is not printable. */
  predicate AnyUnprintable(input: seq<byte>)
    decreases |input|
  {
    input != [] && (!Printable(input[0]) || AnyUnprintable(input[1..]))
  }

  /** `new String(input, US_ASCII)` on octets that are all printable ASCII. */
  function Ascii(input: seq<byte>): (t: string)
    ensures |t| == |input|
  {
    if input == [] then [] else [input[0] as char] + Ascii(input[1..])
  }

  /** `bytesToString(input)`. */
  function BytesToString(input: seq<byte>): (r: string)
    ensures input == [] ==> r == "(empty)"
    ensures input != [] ==> |r| >= 2 * |input| && r[..2 * |input|] == Hex(input)
  {
    if |input| == 0 then "(empty)"
    else if AnyUnprintable(input) then Hex(input)
    else Hex(input) + " (\"" + Ascii(input) + "\")"
  }

  lemma {:induction false} AnyUnprintableExists(input: seq<byte>)
    ensures AnyUnprintable(input) <==> exists i :: 0 <= i < |input| && !Printable(input[i])
    decreases |input|
  {
    if input != [] {
      AnyUnprintableExists(input[1..]);
      if exists i :: 0 <= i < |input| && !Printable(input[i]) {
        var i :| 0 <= i < |input| && !Printable(input[i]);
        if i > 0 {
          assert !Printable(input[1..][i - 1]);
        }
      }
    }
  }

  lemma {:induction false} AsciiChars(input: seq<byte>)
    ensures forall i :: 0 <= i < |input| ==> Ascii(input)[i] == input[i] as char
    decreases |input|
  {
    if input != [] {
      AsciiChars(input[1..]);
    }
  }

  /** The rendering of `bytesToString`: "(empty)" for no octets; otherwise
      the hex digits of every octet, followed by the octets as quoted text
      exactly when every octet is printable. That text is the octets one
      character each and holds no `"`, so its end is the first `"` after
      the opening one. */
  lemma BytesToStringShape(input: seq<byte>)
    ensures var r := BytesToString(input);
      (input == [] ==> r == "(empty)") &&
      (input != [] ==>
        r[..2 * |input|] == Hex(input) &&
        (|r| == 2 * |input| <==> exists i :: 0 <= i < |input| && !Printable(input[i])) &&
        ((forall i :: 0 <= i < |input| ==> Printable(input[i])) ==>
          r == Hex(input) + " (\"" + Ascii(input) + "\")" &&
          '"' !in Ascii(input) &&
          forall i :: 0 <= i < |input| ==> Ascii(input)[i] == input[i] as char))
  {
    AnyUnprintableExists(input);
    if input != [] && !AnyUnprintable(input) {
      PrintableRendering(input);
      AsciiChars(input);
      AsciiNoQuote(input);
    }
  }

  lemma PrintableRendering(input: seq<byte>)
    requires input != [] && !AnyUnprintable(input)
    ensures BytesToString(input) == Hex(input) + " (\"" + Ascii(input) + "\")"
    ensures |BytesToString(input)| == 3 * |input| + 5
  {
    var tail := " (\"" + Ascii(input) + "\")";
    assert BytesToString(input) == Hex(input) + tail;
  }

  /** Printable octets read as text hold no `"`. */
  lemma AsciiNoQuote(input: seq<byte>)
    requires forall i :: 0 <= i < |input| ==> Printable(input[i])
    ensures '"' !in Ascii(input)
  {
    AsciiChars(input);
    forall i | 0 <= i < |input|
      ensures Ascii(input)[i] != '"'
    {
      assert Printable(input[i]);
    }
  }

  /** The value of a lower-case hex digit. */
  function HexValue(c: char): Option<nat> {
    if '0' <= c <= '9' then Some(c as int - '0' as int)
    else if 'a' <= c <= 'f' then Some(c as int - 'a' as int + 10)
    else None
  }

  /** Reads back octets from pairs of hex digits. */
  function UnHex(h: string): Option<seq<byte>>
    decreases |h|
  {
    if h == [] then Some([])
    else if |h| == 1 then None
    else match (HexValue(h[0]), HexValue(h[1]), UnHex(h[2..]))
      case (Some(hi), Some(lo), Some(rest)) => Some([(hi * 16 + lo) % 256] + rest)
      case _ => None
  }

  /** The leading run of hex digits of a string. */
  function HexRun(r: string): (h: string)
    ensures |h| <= |r| && h == r[..|h|]
    decreases |r|
  {
    if r == [] || HexValue(r[0]).None? then [] else [r[0]] + HexRun(r[1..])
  }

  /** Reads the octets back from a rendering of `bytesToString`. */
  function Recover(r: string): Option<seq<byte>> {
    if r == "(empty)" then Some([]) else UnHex(HexRun(r))
  }

  lemma HexDigitValue(n: nat)
    requires n < 16
    ensures HexValue(HexChar(n)) == Some(n)
  {
  }

  lemma {:induction false} UnHexHex(input: seq<byte>)
    ensures UnHex(Hex(input)) == Some(input)
    decreases |input|
  {
    if input != [] {
      var b := input[0];
      UnHexHex(input[1..]);
      UnHexStep(b / 16, b % 16, Hex(input[1..]));
      assert Hex(input) == [HexChar(b / 16), HexChar(b % 16)] + Hex(input[1..]);
      assert input == [b] + input[1..];
    }
  }

  /** Two hex digits in front of a string decode to one octet in front of
      what the string decodes to. */
  lemma UnHexStep(hi: nat, lo: nat, t: string)
    requires hi < 16 && lo < 16
    ensures UnHex([HexChar(hi), HexChar(lo)] + t) ==
      if UnHex(t).Some? then Some([hi * 16 + lo] + UnHex(t).value) else None
  {
    HexDigitValue(hi);
    HexDigitValue(lo);
    var h := [HexChar(hi), HexChar(lo)] + t;
    assert h[0] == HexChar(hi) && h[1] == HexChar(lo) && h[2..] == t;
  }

  lemma {:induction false} HexRunOfHex(input: seq<byte>, rest: string)
    requires rest == [] || HexValue(rest[0]).None?
    ensures HexRun(Hex(input) + rest) == Hex(input)
    decreases |input|
  {
    if input != [] {
      var b := input[0];
      HexDigitValue(b / 16);
      HexDigitValue(b % 16);
      HexRunOfHex(input[1..], rest);
      var t := Hex(input) + rest;
      assert t[1..] == [HexChar(b % 16)] + (Hex(input[1..]) + rest);
      assert t[1..][1..] == Hex(input[1..]) + rest;
    }
  }

  /** The octets come back from their hex digits, whatever follows them
      as long as it does not start with a hex digit. */
  lemma RecoverHex(input: seq<byte>, rest: string)
    requires input != [] && (rest == [] || HexValue(rest[0]).None?)
    ensures Recover(Hex(input) + rest) == Some(input)
  {
    var r := Hex(input) + rest;
    assert r != "(empty)" by {
      HexDigitValue(input[0] / 16);
      assert r[0] == HexChar(input[0] / 16);
    }
    HexRunOfHex(input, rest);
    UnHexHex(input);
  }

  /** The rendering of a non-empty array is its hex digits, followed by
      the quoted text when every octet is printable. */
  lemma RenderingHex(input: seq<byte>)
    requires input != []
    ensures var rest := if AnyUnprintable(input) then [] else " (\"" + Ascii(input) + "\")";
      BytesToString(input) == Hex(input) + rest
  {
    if AnyUnprintable(input) {
      assert Hex(input) + [] == Hex(input);
    }
  }

  /** Round trip: the octets can be read back from every rendering, so two
      different arrays never render alike. */
  lemma RenderingRoundTrip(input: seq<byte>)
    ensures Recover(BytesToString(input)) == Some(input)
  {
    if input != [] {
      RenderingHex(input);
      var rest := if AnyUnprintable(input) then [] else " (\"" + Ascii(input) + "\")";
      RecoverHex(input, rest);
    }
  }
}
