/** The custom section of a WebAssembly binary that holds a plugin's descriptor. */
module WasmDescriptor {
  import opened Wrappers
  import opened ByteStrings
  import opened WasmLengths

  const MAX_DESCRIPTOR_BYTES: nat := 1024 * 1024

  const RESERVED_PREFIX: string := "scryer.plugin-descriptor."

  const DESCRIPTOR_V1: string := RESERVED_PREFIX + "v1"

  const CORE_MAGIC: Bytes := [0, 0x61, 0x73, 0x6d, 1, 0, 0, 0]

  const COMPONENT_MAGIC: Bytes := [0, 0x61, 0x73, 0x6d, 0x0d, 0, 1, 0]

  predicate IsWebAssembly(wasm: Bytes) {
    CORE_MAGIC <= wasm || COMPONENT_MAGIC <= wasm
  }

  /* ---------- names ---------- */

  predicate IsContinuation(b: byte) {
    0x80 <= b <= 0xBF
  }

  /** How many bytes the character at the front takes, or 0 when it is ill-formed. */
  function CharLength(s: Bytes): (n: nat)
    ensures n <= |s|
  {
    if s == [] then 0
    else if s[0] < 0x80 then 1
    else if 0xC2 <= s[0] <= 0xDF then
      if |s| >= 2 && IsContinuation(s[1]) then 2 else 0
    else if 0xE0 <= s[0] <= 0xEF then
      if && |s| >= 3 && IsContinuation(s[1]) && IsContinuation(s[2])
         && (s[0] == 0xE0 ==> s[1] >= 0xA0) && (s[0] == 0xED ==> s[1] <= 0x9F) then 3 else 0
    else if 0xF0 <= s[0] <= 0xF4 then
      if && |s| >= 4 && IsContinuation(s[1]) && IsContinuation(s[2]) && IsContinuation(s[3])
         && (s[0] == 0xF0 ==> s[1] >= 0x90) && (s[0] == 0xF4 ==> s[1] <= 0x8F) then 4 else 0
    else 0
  }

  predicate IsUtf8(s: Bytes) {
    s == [] || (CharLength(s) > 0 && IsUtf8(s[CharLength(s)..]))
  }

  lemma {:induction false} AsciiIsUtf8(s: Bytes)
    requires forall i | 0 <= i < |s| :: s[i] < 0x80
    ensures IsUtf8(s)
  {
    if s != [] {
      AsciiIsUtf8(s[1..]);
    }
  }

  function Ascii(s: string): (r: Bytes)
    requires forall i | 0 <= i < |s| :: s[i] < 128 as char
    ensures |r| == |s| && forall i | 0 <= i < |s| :: r[i] < 0x80
  {
    seq(|s|, i requires 0 <= i < |s| => s[i] as int as byte)
  }

  predicate IsReserved(name: Bytes) {
    Ascii(RESERVED_PREFIX) <= name
  }

  function NameV1(): (r: Bytes)
    ensures |r| < 128 && IsReserved(r) && IsUtf8(r)
  {
    AsciiIsUtf8(Ascii(DESCRIPTOR_V1));
    Ascii(DESCRIPTOR_V1)
  }

  /* ---------- scanning ---------- */

  /** The name of a custom section, and the rest of its contents. */
  type Descriptor = (Bytes, Bytes)

  type Scanned = Result<Option<Descriptor>, WasmError>

  /** A section as the scan takes it apart: its id, and where its contents begin and end. */
  function ReadHeader(wasm: Bytes, offset: nat): (r: Result<(byte, nat, nat), WasmError>)
    requires offset < |wasm|
    ensures r.Success? ==> offset < r.value.1 <= r.value.2 <= |wasm|
  {
    var length := Strict(wasm, offset + 1);
    if length.Failure? then Failure(length.error)
    else
      var (len, start) := length.value;
      StrictExact(wasm, offset + 1, len, start);
      if start + len > |wasm| then Failure(TruncatedPayload) else Success((wasm[offset], start, start + len))
  }

  /** The name and payload of the custom section whose contents lie between start and end. */
  function ReadCustom(wasm: Bytes, start: nat, end: nat): Result<Descriptor, WasmError>
    requires start <= end <= |wasm|
  {
    var length := Strict(wasm, start);
    if length.Failure? then Failure(length.error)
    else
      var (len, from) := length.value;
      if from + len > end then Failure(TruncatedName)
      else
        var name := wasm[from..from + len];
        if !IsUtf8(name) then Failure(NameNotUtf8) else Success((name, wasm[from + len..end]))
  }

  /** What the scan makes of the rest of the binary. */
  function Scan(wasm: Bytes, offset: nat, found: Option<Descriptor>): Scanned
    requires offset <= |wasm|
    decreases |wasm| - offset
  {
    if offset == |wasm| then Success(found)
    else
      var header := ReadHeader(wasm, offset);
      if header.Failure? then Failure(header.error)
      else
        var (id, start, end) := header.value;
        if id != 0 then Scan(wasm, end, found)
        else
          var custom := ReadCustom(wasm, start, end);
          if custom.Failure? then Failure(custom.error)
          else if !IsReserved(custom.value.0) then Scan(wasm, end, found)
          else if found.Some? then Failure(MultipleDescriptors)
          else Scan(wasm, end, Some(custom.value))
  }

  function Described(wasm: Bytes): Scanned {
    if !IsWebAssembly(wasm) then Failure(NotWebAssembly) else Scan(wasm, 8, None)
  }

  method DescriptorCustomSection(wasm: Bytes) returns (result: Scanned)
    ensures result == Described(wasm)
  {
    if !IsWebAssembly(wasm) {
      return Failure(NotWebAssembly);
    }
    var offset := 8;
    var found: Option<Descriptor> := None;
    while offset < |wasm|
      invariant offset <= |wasm| && Scan(wasm, offset, found) == Scan(wasm, 8, None)
      decreases |wasm| - offset
    {
      var id := wasm[offset];
      var length := ReadWasmU32Leb(wasm, offset + 1);
      if length.Failure? {
        return Failure(length.error);
      }
      var (len, start) := length.value;
      StrictExact(wasm, offset + 1, len, start);
      var end := start + len;
      if end > |wasm| {
        return Failure(TruncatedPayload);
      }
      assert ReadHeader(wasm, offset) == Success((id, start, end));
      if id == 0 {
        var custom := ReadCustomSection(wasm, start, end);
        if custom.Failure? {
          return Failure(custom.error);
        }
        if IsReserved(custom.value.0) {
          if found.Some? {
            return Failure(MultipleDescriptors);
          }
          found := Some(custom.value);
        }
      }
      offset := end;
    }
    return Success(found);
  }

  method ReadCustomSection(wasm: Bytes, start: nat, end: nat) returns (result: Result<Descriptor, WasmError>)
    requires start <= end <= |wasm|
    ensures result == ReadCustom(wasm, start, end)
  {
    var length := ReadWasmU32Leb(wasm, start);
    if length.Failure? {
      return Failure(length.error);
    }
    var (len, from) := length.value;
    if from + len > end {
      return Failure(TruncatedName);
    }
    var name := wasm[from..from + len];
    if !IsUtf8(name) {
      return Failure(NameNotUtf8);
    }
    return Success((name, wasm[from + len..end]));
  }

  /* ---------- what a binary is made of ---------- */

  datatype Section = Section(id: byte, length: Bytes, contents: Bytes)

  /** A section as its id, the length of its contents and the contents. */
  ghost function Flat(section: Section): Bytes {
    [section.id] + section.length + section.contents
  }

  ghost function Flatten(sections: seq<Section>): Bytes {
    if sections == [] then []
    else Flat(sections[0]) + Flatten(sections[1..])
  }

  /** The contents of a custom section: the length of its name, the name and a payload. */
  ghost predicate Names(contents: Bytes, d: Descriptor) {
    exists length :: NamesAfter(length, contents, d)
  }

  ghost predicate NamesAfter(length: Bytes, contents: Bytes, d: Descriptor) {
    Encodes(length, |d.0|) && IsUtf8(d.0) && contents == length + d.0 + d.1
  }

  /** The section's length is right, and a custom section has a name. */
  ghost predicate Sound(section: Section) {
    && Encodes(section.length, |section.contents|)
    && (section.id == 0 ==> exists d :: Names(section.contents, d))
  }

  ghost predicate AllSound(sections: seq<Section>) {
    sections != [] ==> Sound(sections[0]) && AllSound(sections[1..])
  }

  /** The descriptor that the section is, if it is a custom section with a reserved name. */
  ghost function DescriptorOf(section: Section): seq<Descriptor>
    requires Sound(section)
  {
    if section.id == 0 then
      var d :| Names(section.contents, d);
      if IsReserved(d.0) then [d] else []
    else []
  }

  /** The descriptors among the sections, in order. */
  ghost function Descriptors(sections: seq<Section>): seq<Descriptor>
    requires AllSound(sections)
  {
    if sections == [] then [] else DescriptorOf(sections[0]) + Descriptors(sections[1..])
  }

  ghost function Listed(found: Option<Descriptor>): seq<Descriptor> {
    if found.None? then [] else [found.value]
  }

  /** The binary is a header and sections, and the descriptors found among them are at most this one. */
  ghost predicate Holds(wasm: Bytes, sections: seq<Section>, found: Option<Descriptor>) {
    && IsWebAssembly(wasm) && wasm[8..] == Flatten(sections)
    && AllSound(sections) && Descriptors(sections) == Listed(found)
  }

  /* ---------- what the scan means ---------- */

  lemma CustomSound(wasm: Bytes, start: nat, end: nat)
    requires start <= end <= |wasm| && ReadCustom(wasm, start, end).Success?
    ensures Names(wasm[start..end], ReadCustom(wasm, start, end).value)
  {
    var (len, from) := Strict(wasm, start).value;
    StrictExact(wasm, start, len, from);
    var d := ReadCustom(wasm, start, end).value;
    assert wasm[start..end] == wasm[start..from] + d.0 + d.1;
    assert NamesAfter(wasm[start..from], wasm[start..end], d);
  }

  lemma CustomComplete(wasm: Bytes, start: nat, end: nat, d: Descriptor)
    requires start <= end <= |wasm| && Names(wasm[start..end], d)
    ensures ReadCustom(wasm, start, end) == Success(d)
  {
    var length :| NamesAfter(length, wasm[start..end], d);
    PartsAt(wasm, start, end, length, d.0, d.1);
    StrictExact(wasm, start, |d.0|, start + |length|);
  }

  lemma PartsAt(wasm: Bytes, start: nat, end: nat, a: Bytes, b: Bytes, c: Bytes)
    requires start <= end <= |wasm| && wasm[start..end] == a + b + c
    ensures start + |a| + |b| + |c| == end
    ensures wasm[start..start + |a|] == a && wasm[start + |a|..start + |a| + |b|] == b
            && wasm[start + |a| + |b|..end] == c
  {
    var s, m := wasm[start..end], |a| + |b|;
    assert |s| == end - start == m + |c|;
    assert s[0..|a|] == a && s[|a|..m] == b && s[m..m + |c|] == c;
    SliceOfSlice(wasm, start, end, 0, |a|);
    SliceOfSlice(wasm, start, end, |a|, m);
    SliceOfSlice(wasm, start, end, m, m + |c|);
  }

  lemma SliceOfSlice(s: Bytes, start: nat, end: nat, i: nat, j: nat)
    requires start <= end <= |s| && i <= j <= end - start
    ensures s[start..end][i..j] == s[start + i..start + j]
  {
    var part := s[start..end];
    assert forall k | 0 <= k < end - start :: part[k] == s[start + k];
    assert forall k | 0 <= k < j - i :: part[i..j][k] == part[i + k] == s[start + i..start + j][k];
  }

  /** The contents determine the name and the payload. */
  lemma NamesUnique(contents: Bytes, d: Descriptor, e: Descriptor)
    requires Names(contents, d) && Names(contents, e)
    ensures d == e
  {
    assert contents[0..|contents|] == contents;
    CustomComplete(contents, 0, |contents|, d);
    CustomComplete(contents, 0, |contents|, e);
  }

  lemma DescriptorIs(section: Section, d: Descriptor)
    requires Sound(section) && section.id == 0 && Names(section.contents, d)
    ensures DescriptorOf(section) == if IsReserved(d.0) then [d] else []
  {
    forall e | Names(section.contents, e) ensures e == d {
      NamesUnique(section.contents, e, d);
    }
  }

  /** The section that a header introduces. */
  ghost function SectionAt(wasm: Bytes, offset: nat): (section: Section)
    requires offset < |wasm| && ReadHeader(wasm, offset).Success?
  {
    var (id, start, end) := ReadHeader(wasm, offset).value;
    Section(id, wasm[offset + 1..start], wasm[start..end])
  }

  lemma HeaderSound(wasm: Bytes, offset: nat)
    requires offset < |wasm| && ReadHeader(wasm, offset).Success?
    ensures var (id, start, end) := ReadHeader(wasm, offset).value;
      var section := SectionAt(wasm, offset);
      && Encodes(section.length, |section.contents|)
      && wasm[offset..] == [section.id] + section.length + section.contents + wasm[end..]
  {
    var (len, start) := Strict(wasm, offset + 1).value;
    StrictExact(wasm, offset + 1, len, start);
  }

  lemma HeaderComplete(wasm: Bytes, offset: nat, section: Section, rest: Bytes)
    requires offset < |wasm| && wasm[offset..] == [section.id] + section.length + section.contents + rest
    requires Encodes(section.length, |section.contents|)
    ensures ReadHeader(wasm, offset).Success? && SectionAt(wasm, offset) == section
    ensures wasm[ReadHeader(wasm, offset).value.2..] == rest
  {
    var tail, n := wasm[offset..], offset + 1 + |section.length|;
    assert tail[0] == section.id && wasm[offset + 1..] == tail[1..] == section.length + section.contents + rest;
    PartsAt(wasm, offset + 1, |wasm|, section.length, section.contents, rest);
    StrictExact(wasm, offset + 1, |section.contents|, n);
  }

  /** A scan that succeeds has gone over sections. */
  lemma {:induction false} ScanSound(wasm: Bytes, offset: nat, found: Option<Descriptor>)
      returns (sections: seq<Section>)
    requires offset <= |wasm| && Scan(wasm, offset, found).Success?
    ensures wasm[offset..] == Flatten(sections) && AllSound(sections)
    ensures Listed(found) + Descriptors(sections) == Listed(Scan(wasm, offset, found).value)
    decreases |wasm| - offset
  {
    if offset == |wasm| {
      return [];
    }
    var (id, start, end) := ReadHeader(wasm, offset).value;
    var section := SectionAt(wasm, offset);
    HeaderSound(wasm, offset);
    var more := found;
    if id == 0 {
      var d := ReadCustom(wasm, start, end).value;
      CustomSound(wasm, start, end);
      DescriptorIs(section, d);
      if IsReserved(d.0) {
        more := Some(d);
      }
    }
    var rest := ScanSound(wasm, end, more);
    sections := [section] + rest;
    assert sections[1..] == rest && sections[0] == section;
    assert Listed(more) == Listed(found) + DescriptorOf(section);
  }

  /** A scan over sections succeeds, unless they hold more than one descriptor. */
  lemma {:induction false} ScanComplete(wasm: Bytes, offset: nat, found: Option<Descriptor>, sections: seq<Section>,
                                        result: Option<Descriptor>)
    requires offset <= |wasm| && wasm[offset..] == Flatten(sections) && AllSound(sections)
    requires Listed(found) + Descriptors(sections) == Listed(result)
    ensures Scan(wasm, offset, found) == Success(result)
    decreases |sections|
  {
    if sections == [] {
      assert Listed(found) == Listed(result);
    } else {
      var section, rest := sections[0], sections[1..];
      HeaderComplete(wasm, offset, section, Flatten(rest));
      var (id, start, end) := ReadHeader(wasm, offset).value;
      var more := found;
      if id == 0 {
        var d :| Names(section.contents, d);
        CustomComplete(wasm, start, end, d);
        DescriptorIs(section, d);
        if IsReserved(d.0) {
          assert |Listed(result)| <= 1 && |DescriptorOf(section)| == 1;
          more := Some(d);
        }
      }
      assert Listed(more) == Listed(found) + DescriptorOf(section);
      ScanComplete(wasm, end, more, rest, result);
    }
  }

  /** The scan succeeds exactly on a header followed by sections with at most one descriptor among
      them, and returns that. */
  lemma DescribedExact(wasm: Bytes, found: Option<Descriptor>)
    ensures Described(wasm) == Success(found) <==> exists sections :: Holds(wasm, sections, found)
  {
    if Described(wasm) == Success(found) {
      var sections := ScanSound(wasm, 8, None);
      assert Holds(wasm, sections, found);
    }
    if sections :| Holds(wasm, sections, found) {
      ScanComplete(wasm, 8, None, sections, found);
    }
  }

  /** The binary begins with these sections, whatever follows them. */
  ghost predicate Begins(wasm: Bytes, offset: nat, sections: seq<Section>, rest: Bytes) {
    offset <= |wasm| && wasm[offset..] == Flatten(sections) + rest && AllSound(sections)
  }

  /** One section more: what the scan has found after it, and where it goes on. */
  lemma OneSection(wasm: Bytes, offset: nat, found: Option<Descriptor>, sections: seq<Section>, rest: Bytes)
    requires Begins(wasm, offset, sections, rest) && sections != []
    ensures offset < |wasm| && ReadHeader(wasm, offset).Success?
    ensures var end := ReadHeader(wasm, offset).value.2;
      && Begins(wasm, end, sections[1..], rest)
      && Scan(wasm, offset, found) ==
         if DescriptorOf(sections[0]) == [] then Scan(wasm, end, found)
         else if found.Some? then Failure(MultipleDescriptors)
         else Scan(wasm, end, Some(DescriptorOf(sections[0])[0]))
  {
    var section, more := sections[0], Flatten(sections[1..]) + rest;
    assert Flatten(sections) + rest == Flat(section) + more;
    HeaderComplete(wasm, offset, section, more);
    var (id, start, end) := ReadHeader(wasm, offset).value;
    if id == 0 {
      var d :| Names(section.contents, d);
      CustomComplete(wasm, start, end, d);
      DescriptorIs(section, d);
    }
  }

  lemma {:induction false} ScanStopsAtTwo(wasm: Bytes, offset: nat, found: Option<Descriptor>, sections: seq<Section>,
                                          rest: Bytes)
    requires Begins(wasm, offset, sections, rest) && |Listed(found)| + |Descriptors(sections)| >= 2
    ensures Scan(wasm, offset, found) == Failure(MultipleDescriptors)
    decreases |sections|
  {
    OneSection(wasm, offset, found, sections, rest);
    var end, ds := ReadHeader(wasm, offset).value.2, DescriptorOf(sections[0]);
    if ds == [] {
      ScanStopsAtTwo(wasm, end, found, sections[1..], rest);
    } else if found.None? {
      ScanStopsAtTwo(wasm, end, Some(ds[0]), sections[1..], rest);
    }
  }

  lemma ReadsNameTheirErrors(wasm: Bytes, start: nat, end: nat)
    requires start <= end <= |wasm|
    ensures ReadCustom(wasm, start, end) != Failure(MultipleDescriptors)
    ensures start < |wasm| ==> ReadHeader(wasm, start) != Failure(MultipleDescriptors)
    ensures ReadCustom(wasm, start, end) != Failure(NotWebAssembly)
    ensures start < |wasm| ==> ReadHeader(wasm, start) != Failure(NotWebAssembly)
  {
    StrictErrors(wasm, start);
    if start < |wasm| {
      StrictErrors(wasm, start + 1);
    }
  }

  lemma {:induction false} TwoAreThere(wasm: Bytes, offset: nat, found: Option<Descriptor>)
      returns (sections: seq<Section>, rest: Bytes)
    requires offset <= |wasm| && Scan(wasm, offset, found) == Failure(MultipleDescriptors)
    ensures Begins(wasm, offset, sections, rest) && |Listed(found)| + |Descriptors(sections)| >= 2
    decreases |wasm| - offset
  {
    ReadsNameTheirErrors(wasm, offset, offset);
    var (id, start, end) := ReadHeader(wasm, offset).value;
    var section := SectionAt(wasm, offset);
    HeaderSound(wasm, offset);
    var more := found;
    if id == 0 {
      ReadsNameTheirErrors(wasm, start, end);
      var d := ReadCustom(wasm, start, end).value;
      CustomSound(wasm, start, end);
      DescriptorIs(section, d);
      if IsReserved(d.0) && found.Some? {
        sections, rest := [section], wasm[end..];
        OnlySection(section);
        return;
      }
      more := if IsReserved(d.0) then Some(d) else found;
    }
    var others;
    others, rest := TwoAreThere(wasm, end, more);
    sections := [section] + others;
    assert sections[1..] == others && Flat(section) + (Flatten(others) + rest) == Flatten(sections) + rest;
    assert |Listed(more)| == |Listed(found)| + |DescriptorOf(section)|;
  }

  lemma OnlySection(section: Section)
    requires Sound(section)
    ensures AllSound([section]) && Flatten([section]) == Flat(section)
    ensures Descriptors([section]) == DescriptorOf(section)
  {
    assert [section][1..] == [];
  }

  lemma {:induction false} ScanKnowsWebAssembly(wasm: Bytes, offset: nat, found: Option<Descriptor>)
    requires offset <= |wasm|
    ensures Scan(wasm, offset, found) != Failure(NotWebAssembly)
    decreases |wasm| - offset
  {
    if offset < |wasm| {
      ReadsNameTheirErrors(wasm, offset, offset);
      if ReadHeader(wasm, offset).Success? {
        var (id, start, end) := ReadHeader(wasm, offset).value;
        ReadsNameTheirErrors(wasm, start, end);
        ScanKnowsWebAssembly(wasm, end, found);
        if ReadCustom(wasm, start, end).Success? {
          ScanKnowsWebAssembly(wasm, end, Some(ReadCustom(wasm, start, end).value));
        }
      }
    }
  }

  /** The magic of a binary, and the version and layer of a core module or of a component. */
  predicate HasHeader(wasm: Bytes) {
    |wasm| >= 8 && wasm[..4] == [0, 0x61, 0x73, 0x6d] && (wasm[4..8] == [1, 0, 0, 0] || wasm[4..8] == [0x0d, 0, 1, 0])
  }

  lemma HeaderExact(wasm: Bytes)
    ensures IsWebAssembly(wasm) <==> HasHeader(wasm)
  {
    if |wasm| >= 8 {
      assert wasm[..8] == wasm[..4] + wasm[4..8];
      assert CORE_MAGIC[..4] == COMPONENT_MAGIC[..4] == [0, 0x61, 0x73, 0x6d];
      assert CORE_MAGIC[4..8] == [1, 0, 0, 0] && COMPONENT_MAGIC[4..8] == [0x0d, 0, 1, 0];
    }
  }

  /** A binary is no WebAssembly exactly without the header, and has several descriptors exactly when the
      sections that it begins with, sound ones, hold two, whatever follows. */
  lemma RefusedExactly(wasm: Bytes)
    ensures Described(wasm) == Failure(NotWebAssembly) <==> !HasHeader(wasm)
    ensures Described(wasm) == Failure(MultipleDescriptors) <==>
            HasHeader(wasm) && exists sections, rest :: Begins(wasm, 8, sections, rest) && |Descriptors(sections)| >= 2
  {
    HeaderExact(wasm);
    if HasHeader(wasm) {
      ScanKnowsWebAssembly(wasm, 8, None);
      if Scan(wasm, 8, None) == Failure(MultipleDescriptors) {
        var sections, rest := TwoAreThere(wasm, 8, None);
      }
      if sections, rest :| Begins(wasm, 8, sections, rest) && |Descriptors(sections)| >= 2 {
        ScanStopsAtTwo(wasm, 8, None, sections, rest);
      }
    }
  }

  /* ---------- embedding ---------- */

  function Body(payload: Bytes): Bytes {
    Leb(|NameV1()|) + NameV1() + payload
  }

  function Embedded(wasm: Bytes, payload: Bytes): Bytes {
    wasm + [0] + Leb(|Body(payload)|) + Body(payload)
  }

  function Appended(wasm: Bytes, payload: Bytes): Result<Bytes, WasmError> {
    if |payload| > MAX_DESCRIPTOR_BYTES then Failure(PayloadTooLarge)
    else
      var described := Described(wasm);
      if described.Failure? then Failure(described.error)
      else if described.value.Some? then Failure(AlreadyEmbedded(described.value.value.0))
      else Success(Embedded(wasm, payload))
  }

  /** The length of the section always fits 32 bits. */
  method AppendPluginDescriptorCustomSection(wasm: Bytes, payload: Bytes) returns (result: Result<Bytes, WasmError>)
    ensures result == Appended(wasm, payload)
  {
    if |payload| > MAX_DESCRIPTOR_BYTES {
      return Failure(PayloadTooLarge);
    }
    var described := DescriptorCustomSection(wasm);
    if described.Failure? {
      return Failure(described.error);
    }
    if described.value.Some? {
      return Failure(AlreadyEmbedded(described.value.value.0));
    }
    var embedded := Embed(wasm, payload);
    return Success(embedded);
  }

  method Embed(wasm: Bytes, payload: Bytes) returns (embedded: Bytes)
    requires |payload| <= MAX_DESCRIPTOR_BYTES
    ensures embedded == Embedded(wasm, payload)
  {
    var body := BuildBody(payload);
    BodyNames(payload);
    embedded := wasm + [0];
    embedded := WriteWasmU32Leb(|body|, embedded);
    embedded := embedded + body;
  }

  method BuildBody(payload: Bytes) returns (body: Bytes)
    ensures body == Body(payload)
  {
    var name := NameV1();
    body := WriteWasmU32Leb(|name|, []);
    body := body + name;
    body := body + payload;
  }

  ghost function SectionV1(payload: Bytes): Section {
    Section(0, Leb(|Body(payload)|), Body(payload))
  }

  lemma SectionV1Sound(payload: Bytes)
    requires |payload| <= MAX_DESCRIPTOR_BYTES
    ensures Sound(SectionV1(payload)) && DescriptorOf(SectionV1(payload)) == [(NameV1(), payload)]
  {
    LebEncodes(|Body(payload)|, 0);
    BodyNames(payload);
    var section := SectionV1(payload);
    assert Sound(section);
    DescriptorIs(section, (NameV1(), payload));
  }

  lemma BodyNames(payload: Bytes)
    requires |payload| <= MAX_DESCRIPTOR_BYTES
    ensures Names(Body(payload), (NameV1(), payload)) && |Body(payload)| < U32
  {
    LebEncodes(|NameV1()|, 0);
    assert NamesAfter(Leb(|NameV1()|), Body(payload), (NameV1(), payload));
  }

  lemma {:induction false} FlattenMore(sections: seq<Section>, last: Section)
    ensures Flatten(sections + [last]) == Flatten(sections) + Flat(last)
  {
    if sections == [] {
      assert sections + [last] == [last];
      assert Flatten([last]) == Flat(last) + Flatten([]);
    } else {
      FlattenMore(sections[1..], last);
      assert (sections + [last])[1..] == sections[1..] + [last];
      Reassociate(Flat(sections[0]), Flatten(sections[1..]), Flat(last));
    }
  }

  lemma {:induction false} SoundMore(sections: seq<Section>, last: Section)
    requires AllSound(sections) && Sound(last)
    ensures AllSound(sections + [last])
  {
    if sections == [] {
      assert sections + [last] == [last];
    } else {
      SoundMore(sections[1..], last);
      assert (sections + [last])[1..] == sections[1..] + [last];
    }
  }

  lemma {:induction false} DescriptorsMore(sections: seq<Section>, last: Section)
    requires AllSound(sections) && Sound(last) && AllSound(sections + [last])
    ensures Descriptors(sections + [last]) == Descriptors(sections) + DescriptorOf(last)
  {
    if sections == [] {
      assert sections + [last] == [last];
    } else {
      SoundMore(sections[1..], last);
      DescriptorsMore(sections[1..], last);
      assert (sections + [last])[1..] == sections[1..] + [last];
    }
  }

  /** The result holds the sections of the binary, and the new one after them. */
  lemma EmbeddedHolds(wasm: Bytes, payload: Bytes, sections: seq<Section>)
    requires |payload| <= MAX_DESCRIPTOR_BYTES && Holds(wasm, sections, None)
    ensures Holds(Embedded(wasm, payload), sections + [SectionV1(payload)], Some((NameV1(), payload)))
  {
    var last := SectionV1(payload);
    SectionV1Sound(payload);
    SoundMore(sections, last);
    DescriptorsMore(sections, last);
    FlattenMore(sections, last);
    EmbeddedIs(wasm, payload);
    StillWebAssembly(wasm, Flat(last));
  }

  lemma EmbeddedIs(wasm: Bytes, payload: Bytes)
    ensures Embedded(wasm, payload) == wasm + Flat(SectionV1(payload))
  {
  }

  lemma StillWebAssembly(wasm: Bytes, more: Bytes)
    requires IsWebAssembly(wasm)
    ensures IsWebAssembly(wasm + more) && (wasm + more)[8..] == wasm[8..] + more
  {
  }

  ghost predicate Framed(wasm: Bytes) {
    exists sections :: Holds(wasm, sections, None)
  }

  /** Appending succeeds exactly within the limit on a well-formed binary without a descriptor. */
  lemma AppendsExactly(wasm: Bytes, payload: Bytes)
    ensures Appended(wasm, payload).Success? <==> |payload| <= MAX_DESCRIPTOR_BYTES && Framed(wasm)
  {
    DescribedExact(wasm, None);
  }

  /** The binary is a prefix of the result, its sections are still there before the new one, the result
      reads back to the v1 name and the payload, and nothing can be appended to it again. */
  lemma EmbedThenParse(wasm: Bytes, payload: Bytes, again: Bytes)
    requires Appended(wasm, payload).Success?
    ensures var embedded := Appended(wasm, payload).value;
      && wasm <= embedded
      && (forall sections | Holds(wasm, sections, None) ::
            Holds(embedded, sections + [SectionV1(payload)], Some((NameV1(), payload))))
      && Described(embedded) == Success(Some((NameV1(), payload)))
      && Appended(embedded, again) ==
           Failure(if |again| > MAX_DESCRIPTOR_BYTES then PayloadTooLarge else AlreadyEmbedded(NameV1()))
  {
    AppendsExactly(wasm, payload);
    var embedded, d := Embedded(wasm, payload), (NameV1(), payload);
    forall sections | Holds(wasm, sections, None)
      ensures Holds(embedded, sections + [SectionV1(payload)], Some(d))
    {
      EmbeddedHolds(wasm, payload, sections);
    }
    DescribedExact(embedded, Some(d));
  }
}
