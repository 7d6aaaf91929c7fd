/** One linker/loader command and its 128-byte entry. */
module LoaderCommands {
  import opened Results
  import opened AcpiErrors
  import opened Bytes
  import opened Sdt
  import opened Fields

  const ENTRY_LEN: nat := 128
  const FNAME_LEN: nat := 56

  predicate IsContinuation(b: byte) {
    0x80 <= b <= 0xbf
  }

  /** Well-formed UTF-8 (Table 3-7 of the Unicode Standard). */
  predicate IsUtf8(s: seq<byte>) {
    if s == [] then true
    else if s[0] < 0x80 then IsUtf8(s[1..])
    else if 0xc2 <= s[0] <= 0xdf then |s| >= 2 && IsContinuation(s[1]) && IsUtf8(s[2..])
    else if 0xe0 <= s[0] <= 0xef then
      && |s| >= 3 && IsContinuation(s[1]) && IsContinuation(s[2])
      && (s[0] == 0xe0 ==> 0xa0 <= s[1]) && (s[0] == 0xed ==> s[1] <= 0x9f)
      && IsUtf8(s[3..])
    else
      && 0xf0 <= s[0] <= 0xf4
      && |s| >= 4 && IsContinuation(s[1]) && IsContinuation(s[2]) && IsContinuation(s[3])
      && (s[0] == 0xf0 ==> 0x90 <= s[1]) && (s[0] == 0xf4 ==> s[1] <= 0x8f)
      && IsUtf8(s[4..])
  }

  /** A file name: the bytes of a string. */
  type FileName = s: seq<byte> | IsUtf8(s) witness []

  datatype Zone = High | FSeg

  datatype LoaderCommand =
    | Allocate(file: FileName, align: u32, zone: Zone)
    | AddPointer(pointer: FileName, pointee: FileName, offset: u32, size: byte)
    | AddChecksum(file: FileName, result: u32, start: u32, len: u32)

  /** The name is not empty, fits with its NUL, and holds no NUL. */
  predicate NameFits(name: seq<byte>) {
    1 <= |name| < FNAME_LEN && 0 !in name
  }

  predicate Encodes(c: LoaderCommand) {
    match c
    case Allocate(file, _, _) => NameFits(file)
    case AddPointer(pointer, pointee, _, _) => NameFits(pointer) && NameFits(pointee)
    case AddChecksum(file, _, _, _) => NameFits(file)
  }

  function PutName(entry: seq<byte>, at: nat, name: seq<byte>): (r: Result<seq<byte>, AcpiError>)
    requires at + FNAME_LEN <= |entry|
    ensures r.Ok? <==> NameFits(name)
    ensures r.Ok? ==> |r.value| == |entry|
  {
    if NameFits(name) then Ok(Put(entry, at, name)) else Err(BadTable)
  }

  function ZoneCode(z: Zone): (r: byte) {
    if z == High then 1 else 2
  }

  /** The entry: a zeroed array patched field by field. */
  function Encode(c: LoaderCommand): (r: Result<seq<byte>, AcpiError>)
    ensures r.Ok? <==> Encodes(c)
    ensures r.Ok? ==> |r.value| == ENTRY_LEN
  {
    var entry := Zeros(ENTRY_LEN);
    match c
    case Allocate(file, align, zone) =>
      var e :- PutName(Put(entry, 0, LE(4, 1)), 4, file);
      Ok(Put(Put(e, 60, LE(4, align)), 64, [ZoneCode(zone)]))
    case AddPointer(pointer, pointee, offset, size) =>
      var e :- PutName(Put(entry, 0, LE(4, 2)), 4, pointer);
      var e :- PutName(e, 60, pointee);
      Ok(Put(Put(e, 116, LE(4, offset)), 120, [size]))
    case AddChecksum(file, result, start, len) =>
      var e :- PutName(Put(entry, 0, LE(4, 3)), 4, file);
      Ok(Put(Put(Put(e, 60, LE(4, result)), 64, LE(4, start)), 68, LE(4, len)))
  }

  /** The bytes before the first NUL. */
  function UntilNul(s: seq<byte>): (r: Option<seq<byte>>) {
    if s == [] then None
    else if s[0] == 0 then Some([])
    else
      var rest := UntilNul(s[1..]);
      if rest.None? then None else Some([s[0]] + rest.value)
  }

  function GetName(field: seq<byte>): (r: Result<FileName, AcpiError>) {
    var name := UntilNul(field);
    if name.None? || !IsUtf8(name.value) then Err(BadTable) else Ok(name.value)
  }

  function Decode(entry: seq<byte>): (r: Result<LoaderCommand, AcpiError>) {
    if |entry| != ENTRY_LEN then Err(Truncated)
    else
      FieldsFit(entry);
      match U32At(entry, 0)
      case 1 =>
        var file :- GetName(entry[4..60]);
        if entry[64] == 1 then Ok(Allocate(file, U32At(entry, 60), High))
        else if entry[64] == 2 then Ok(Allocate(file, U32At(entry, 60), FSeg))
        else Err(BadTable)
      case 2 =>
        var pointer :- GetName(entry[4..60]);
        var pointee :- GetName(entry[60..116]);
        Ok(AddPointer(pointer, pointee, U32At(entry, 116), entry[120]))
      case 3 =>
        var file :- GetName(entry[4..60]);
        Ok(AddChecksum(file, U32At(entry, 60), U32At(entry, 64), U32At(entry, 68)))
      case _ => Err(BadTable)
  }

  // ----- round trip -----

  lemma {:induction false} UntilNulOf(name: seq<byte>, rest: seq<byte>)
    requires 0 !in name
    ensures UntilNul(name + [0] + rest) == Some(name)
  {
    var s := name + [0] + rest;
    if name != [] {
      UntilNulOf(name[1..], rest);
      assert s[1..] == name[1..] + [0] + rest;
      assert [name[0]] + name[1..] == name;
    }
  }

  lemma NameRoundTrip(entry: seq<byte>, at: nat, name: FileName)
    requires NameFits(name) && at + FNAME_LEN <= |entry|
    requires entry[at..at + |name|] == name
    requires forall i :: at + |name| <= i < at + FNAME_LEN ==> entry[i] == 0
    ensures GetName(entry[at..at + FNAME_LEN]) == Ok(name)
  {
    var rest := entry[at + |name| + 1..at + FNAME_LEN];
    assert entry[at..at + FNAME_LEN] == name + [0] + rest;
    UntilNulOf(name, rest);
  }

  lemma AllocateRoundTrip(file: FileName, align: u32, zone: Zone)
    requires NameFits(file)
    ensures Decode(Encode(Allocate(file, align, zone)).value) == Ok(Allocate(file, align, zone))
  {
    hide LE, GetName;
    var e := Encode(Allocate(file, align, zone)).value;
    assert e[0..4] == LE(4, 1);
    U32AtLE(e, 0, 1);
    NameRoundTrip(e, 4, file);
    assert e[60..64] == LE(4, align);
    U32AtLE(e, 60, align);
  }

  lemma AddPointerRoundTrip(pointer: FileName, pointee: FileName, offset: u32, size: byte)
    requires NameFits(pointer) && NameFits(pointee)
    ensures Decode(Encode(AddPointer(pointer, pointee, offset, size)).value)
              == Ok(AddPointer(pointer, pointee, offset, size))
  {
    hide LE, GetName;
    var e := Encode(AddPointer(pointer, pointee, offset, size)).value;
    assert e[0..4] == LE(4, 2);
    U32AtLE(e, 0, 2);
    NameRoundTrip(e, 4, pointer);
    NameRoundTrip(e, 60, pointee);
    assert e[116..120] == LE(4, offset);
    U32AtLE(e, 116, offset);
  }

  lemma AddChecksumRoundTrip(file: FileName, result: u32, start: u32, len: u32)
    requires NameFits(file)
    ensures Decode(Encode(AddChecksum(file, result, start, len)).value) == Ok(AddChecksum(file, result, start, len))
  {
    hide LE, GetName;
    var e := Encode(AddChecksum(file, result, start, len)).value;
    assert e[0..4] == LE(4, 3);
    U32AtLE(e, 0, 3);
    NameRoundTrip(e, 4, file);
    assert e[60..64] == LE(4, result);
    U32AtLE(e, 60, result);
    assert e[64..68] == LE(4, start);
    U32AtLE(e, 64, start);
    assert e[68..72] == LE(4, len);
    U32AtLE(e, 68, len);
  }

  lemma CommandRoundTrip(c: LoaderCommand)
    requires Encodes(c)
    ensures Decode(Encode(c).value) == Ok(c)
  {
    hide Encode, Decode;
    match c
    case Allocate(file, align, zone) => AllocateRoundTrip(file, align, zone);
    case AddPointer(pointer, pointee, offset, size) => AddPointerRoundTrip(pointer, pointee, offset, size);
    case AddChecksum(file, result, start, len) => AddChecksumRoundTrip(file, result, start, len);
  }

  // ----- the script file -----

  function EncodeAll(cs: seq<LoaderCommand>): (r: Result<seq<byte>, AcpiError>)
    ensures r.Ok? <==> forall i :: 0 <= i < |cs| ==> Encodes(cs[i])
    ensures r.Ok? ==> |r.value| == ENTRY_LEN * |cs|
  {
    if cs == [] then Ok([])
    else
      var head :- Encode(cs[0]);
      var tail :- EncodeAll(cs[1..]);
      Ok(head + tail)
  }

  /** `LoaderBlobs::loader`: append each entry, stopping at the first error. */
  method EncodeScript(cs: seq<LoaderCommand>) returns (r: Result<seq<byte>, AcpiError>)
    ensures r == EncodeAll(cs)
  {
    hide Encode, Encodes;
    var out: seq<byte> := [];
    assert cs[0..] == cs;
    assert EncodeAll(cs).Ok? ==> out + EncodeAll(cs).value == EncodeAll(cs).value;
    for i := 0 to |cs|
      invariant var rest := EncodeAll(cs[i..]);
                EncodeAll(cs) == if rest.Ok? then Ok(out + rest.value) else rest
    {
      assert cs[i..][1..] == cs[i + 1..];
      var entry :- Encode(cs[i]);
      ghost var rest := EncodeAll(cs[i + 1..]);
      assert rest.Ok? ==> out + (entry + rest.value) == out + entry + rest.value;
      out := out + entry;
    }
    assert out + [] == out;
    return Ok(out);
  }

  /** The firmware's reading of the file: 128-byte entries, each decoded. */
  function DecodeAll(s: seq<byte>): (r: Result<seq<LoaderCommand>, AcpiError>) {
    if s == [] then Ok([])
    else if |s| < ENTRY_LEN then Err(BadTable)
    else
      var head :- Decode(s[..ENTRY_LEN]);
      var tail :- DecodeAll(s[ENTRY_LEN..]);
      Ok([head] + tail)
  }

  /** A script encodes exactly when its names fit, and then decodes to itself. */
  lemma {:induction false} ScriptRoundTrip(cs: seq<LoaderCommand>)
    requires EncodeAll(cs).Ok?
    ensures DecodeAll(EncodeAll(cs).value) == Ok(cs)
  {
    hide Encode, Decode, Encodes;
    if cs != [] {
      var head, tail := Encode(cs[0]).value, EncodeAll(cs[1..]).value;
      CommandRoundTrip(cs[0]);
      ScriptRoundTrip(cs[1..]);
      DropHead(head, tail);
      assert [cs[0]] + cs[1..] == cs;
    }
  }
}
