// The image tool (scripts/imgtool/image.py): encrypting an image and putting its header in front, and what the
// device makes of the result.
module Tool {
  import opened AfterSwap
  import opened Bytes
  import opened CmdLog
  import opened Ctr
  import opened Digest
  import opened Flash
  import opened Header
  import opened Images
  import opened Move
  import opened Recovery
  import opened Runs
  import opened Swap

  const SIGNATURE_BYTES: nat := 64

  // ----- the octets of a header -----

  function Entry(typ: byte, value: seq<byte>): (r: seq<byte>)
    requires |value| < 256
    ensures |r| == |value| + 2
  {
    [typ, |value|] + value
  }

  // The image info entry: start, size, load address and version, little-endian.
  function InfoValue(start: nat, size: nat, load: nat, v: ImgVer): (r: seq<byte>)
    ensures |r| == IMAGE_INFO_BYTES
  {
    PutU32(start) + PutU32(size) + PutU32(load) + [v.major, v.minor] + PutU16(v.revision) + PutU32(v.build)
  }

  // The fields fit the words they are packed into; struct.pack raises an error otherwise.
  predicate FieldsFit(start: nat, size: nat, load: nat, v: ImgVer) {
    && start < 0x1_0000_0000 && size < 0x1_0000_0000 && load < 0x1_0000_0000
    && v.revision < 0x1_0000 && v.build < 0x1_0000_0000
  }

  lemma InfoValueReads(start: nat, size: nat, load: nat, v: ImgVer)
    requires FieldsFit(start, size, load, v)
    ensures var s := InfoValue(start, size, load, v);
            InfoStart(s) == start && InfoSize(s) == size && InfoLoad(s) == load && InfoVersion(s) == v
  {
    hide PutU32, U32, PutU16, U16;
    var s, a, b, c, d, e := InfoValue(start, size, load, v), PutU32(start), PutU32(size), PutU32(load),
        PutU16(v.revision),
                            PutU32(v.build);
    U32RoundTrip(start);
    U32RoundTrip(size);
    U32RoundTrip(load);
    U16RoundTrip(v.revision);
    U32RoundTrip(v.build);
    assert s[0] == a[0] && s[1] == a[1] && s[2] == a[2] && s[3] == a[3];
    assert s[4] == b[0] && s[5] == b[1] && s[6] == b[2] && s[7] == b[3];
    assert s[8] == c[0] && s[9] == c[1] && s[10] == c[2] && s[11] == c[3];
    assert s[12] == v.major && s[13] == v.minor && s[14] == d[0] && s[15] == d[1];
    assert s[16] == e[0] && s[17] == e[1] && s[18] == e[2] && s[19] == e[3];
  }

  // The fields fit exactly if the reader gets back what was packed.
  lemma FieldsFitExact(start: nat, size: nat, load: nat, v: ImgVer)
    ensures var s := InfoValue(start, size, load, v);
            FieldsFit(start, size, load, v) <==>
              InfoStart(s) == start && InfoSize(s) == size && InfoLoad(s) == load && InfoVersion(s) == v
  {
    if FieldsFit(start, size, load, v) {
      InfoValueReads(start, size, load, v);
    }
    hide InfoValue, U32, U16;
    WordsSmall();
  }

  lemma WordsSmall()
    ensures forall a: byte, b: byte, c: byte, d: byte :: U32(a, b, c, d) < 0x1_0000_0000
    ensures forall a: byte, b: byte :: U16(a, b) < 0x1_0000
  {}

  function EpubkEntry(epubk: Option<seq<byte>>): seq<byte>
    requires epubk.Some? ==> |epubk.value| < 256
  {
    if epubk.Some? then Entry(TLVE_IMAGE_EPUBKEY, epubk.value) else []
  }

  // The TLV area: type, info, hash and, for an encrypted image, the ephemeral public key.
  function TlvBytes(info: seq<byte>, digest: seq<byte>, epubk: Option<seq<byte>>): seq<byte>
    requires |info| < 256 && |digest| < 256 && (epubk.Some? ==> |epubk.value| < 256)
  {
    Entry(TLVE_IMAGE_TYPE, [0])
    + (Entry(TLVE_IMAGE_INFO, info) + (Entry(TLVE_IMAGE_HASH, digest) + EpubkEntry(epubk)))
  }

  function HdrFields(n: nat, signature: seq<byte>): seq<byte> {
    PutU32(TLV_AREA_MAGIC) + PutU16(n) + [0, 0] + signature
  }

  lemma HdrLength(n: nat, signature: seq<byte>)
    ensures |HdrFields(n, signature)| == 8 + |signature|
  {
    hide PutU32, PutU16;
  }

  // The first octets of every header: the magic word, the length, and two octets of type.
  lemma HeaderStarts(n: nat, signature: seq<byte>)
    ensures HdrFields(n, signature)[..8] == [0x41, 0x56, 0x4c, 0x54, n % 256, n / 256 % 256, 0, 0]
    ensures HdrFields(n, signature)[8..] == signature
  {
    assert PutU32(TLV_AREA_MAGIC) == [0x41, 0x56, 0x4c, 0x54];
    assert PutU16(n) == [n % 256, n / 256 % 256];
    hide PutU32, PutU16;
  }

  // The area, put together entry by entry.
  lemma TlvJoined(info: seq<byte>, digest: seq<byte>, epubk: Option<seq<byte>>)
    requires |info| < 256 && |digest| < 256 && (epubk.Some? ==> |epubk.value| < 256)
    ensures var t := Entry(TLVE_IMAGE_TYPE, [0]) + Entry(TLVE_IMAGE_INFO, info) + Entry(TLVE_IMAGE_HASH, digest);
            TlvBytes(info, digest, epubk) == if epubk.Some? then t + Entry(TLVE_IMAGE_EPUBKEY, epubk.value) else t
  {
    hide Entry;
    var a, b, c, d := Entry(TLVE_IMAGE_TYPE, [0]), Entry(TLVE_IMAGE_INFO, info), Entry(TLVE_IMAGE_HASH, digest),
        EpubkEntry(epubk);
    assert a + (b + (c + d)) == a + b + c + d;
    assert a + b + c + [] == a + b + c;
  }

  // The octets of an area with entries of the usual lengths.
  lemma AreaOctets(info: seq<byte>, digest: seq<byte>, epubk: Option<seq<byte>>)
    requires |info| == IMAGE_INFO_BYTES && |digest| == HASH_BYTES && (epubk.Some? ==> |epubk.value| == PUBLIC_KEY_BYTES)
    ensures TlvBytes(info, digest, epubk)
         == [0x10, 1, 0] + ([0x20, 20] + info) + ([0x30, 32] + digest)
            + (if epubk.Some? then [0x40, 64] + epubk.value else [])
  {
    TlvJoined(info, digest, epubk);
    assert Entry(TLVE_IMAGE_TYPE, [0]) == [0x10, 1, 0];
    assert Entry(TLVE_IMAGE_INFO, info) == [0x20, 20] + info;
    assert Entry(TLVE_IMAGE_HASH, digest) == [0x30, 32] + digest;
    assert epubk.Some? ==> Entry(TLVE_IMAGE_EPUBKEY, epubk.value) == [0x40, 64] + epubk.value;
    hide Entry, TlvBytes;
  }

  // How many octets of 0xff make n a multiple of the alignment.
  function PadLength(n: nat, align: nat): nat
    requires align > 0
    decreases if n % align == 0 then 0 else align - n % align
  {
    NextRemainder(n, align);
    if n % align == 0 then 0 else 1 + PadLength(n + 1, align)
  }

  // The least number of octets that reaches a multiple of the alignment.
  lemma {:induction false} PadExact(n: nat, align: nat)
    requires align > 0
    ensures (n + PadLength(n, align)) % align == 0 && PadLength(n, align) < align
    decreases PadLength(n, align)
  {
    NextRemainder(n, align);
    if n % align != 0 {
      PadExact(n + 1, align);
      PadRest(n, align);
    }
  }

  lemma {:induction false} PadRest(n: nat, align: nat)
    requires align > 0
    ensures PadLength(n, align) == if n % align == 0 then 0 else align - n % align
    decreases PadLength(n, align)
  {
    NextRemainder(n, align);
    if n % align != 0 {
      PadRest(n + 1, align);
    }
  }

  lemma NextRemainder(n: nat, align: nat)
    requires align > 0
    ensures (n + 1) % align == if n % align == align - 1 then 0 else n % align + 1
  {
    var q, r := n / align, n % align;
    assert n == q * align + r;
    if r == align - 1 {
      assert n + 1 == (q + 1) * align + 0;
      ModUnique(n + 1, align, q + 1, 0);
    } else {
      ModUnique(n + 1, align, q, r + 1);
    }
  }

  function HeaderBytes(tlv: seq<byte>, signature: seq<byte>, align: nat): (r: seq<byte>)
    requires align > 0 && |signature| == SIGNATURE_BYTES
    ensures |r| == TLV_HDR_SIZE + PadLength(TLV_HDR_SIZE, align) + |tlv|
  {
    var pad := PadLength(TLV_HDR_SIZE, align);
    HdrFields(TLV_HDR_SIZE + pad + |tlv|, signature) + Fill(pad) + tlv
  }

  // ----- print and parse -----

  lemma EntryFirst(typ: byte, value: seq<byte>, rest: seq<byte>, t: byte)
    requires |value| < 256 && WellFormed(rest)
    ensures WellFormed(Entry(typ, value) + rest)
    ensures Find(Entry(typ, value) + rest, t) == if t == typ then Some(value) else Find(rest, t)
  {
    var tlv := Entry(typ, value) + rest;
    assert tlv[1] == |value| && tlv[|value| + 2..] == rest && tlv[2..|value| + 2] == value;
    FindStep(tlv, t);
  }

  lemma EpubkFirst(epubk: Option<seq<byte>>, t: byte)
    requires epubk.Some? ==> |epubk.value| < 256
    ensures WellFormed(EpubkEntry(epubk))
    ensures Find(EpubkEntry(epubk), t) == if t == TLVE_IMAGE_EPUBKEY then epubk else None
  {
    if epubk.Some? {
      EntryFirst(TLVE_IMAGE_EPUBKEY, epubk.value, [], t);
      assert EpubkEntry(epubk) == Entry(TLVE_IMAGE_EPUBKEY, epubk.value) + [];
    }
    FindInNothing(t);
  }

  // The searches find in a printed area what was printed.
  lemma PrintedEntries(info: seq<byte>, digest: seq<byte>, epubk: Option<seq<byte>>, t: byte)
    requires |info| < 256 && |digest| < 256 && (epubk.Some? ==> |epubk.value| < 256)
    ensures WellFormed(TlvBytes(info, digest, epubk))
    ensures Find(TlvBytes(info, digest, epubk), t)
         == if t == TLVE_IMAGE_TYPE then Some([0]) else if t == TLVE_IMAGE_INFO then Some(info)
            else if t == TLVE_IMAGE_HASH then Some(digest) else if t == TLVE_IMAGE_EPUBKEY then epubk else None
  {
    hide WellFormed, Find, Entry, EpubkEntry;
    var d := EpubkEntry(epubk);
    EpubkFirst(epubk, t);
    EntryFirst(TLVE_IMAGE_HASH, digest, d, t);
    EntryFirst(TLVE_IMAGE_INFO, info, Entry(TLVE_IMAGE_HASH, digest) + d, t);
    EntryFirst(TLVE_IMAGE_TYPE, [0], Entry(TLVE_IMAGE_INFO, info) + (Entry(TLVE_IMAGE_HASH, digest) + d), t);
  }

  // What the device should find: every field as it was printed.
  function PrintedInfo(cr: Crypto, h: nat, start: nat, size: nat, load: nat, v: ImgVer,
                       epubk: Option<seq<byte>>): ImgInfo {
    var i := ImgInfo(h, h + start, h, h + start + size, load, v, [], 0, false);
    if epubk.None? || |epubk.value| != PUBLIC_KEY_BYTES then i.(enc_start := i.end, is_valid := true)
    else match cr.keyOf(epubk.value)
      case None => i
      case Some(key) => i.(enc_key := key, enc_start := i.start, is_valid := true)
  }

  // Print and parse agree, for all field values in range, with or without the check of the body's hash.
  lemma ParsePrinted(cr: Crypto, h: nat, start: nat, size: nat, load: nat, v: ImgVer, digest: seq<byte>,
                     epubk: Option<seq<byte>>, check: Option<seq<byte>>)
    requires FieldsFit(start, size, load, v) && |digest| == HASH_BYTES && (epubk.Some? ==> |epubk.value| < 256)
    requires check.Some? ==> check.value == digest
    ensures ParseInfo(cr, TlvBytes(InfoValue(start, size, load, v), digest, epubk), h, check)
         == PrintedInfo(cr, h, start, size, load, v, epubk)
  {
    var info := InfoValue(start, size, load, v);
    InfoValueReads(start, size, load, v);
    hide Find, TlvBytes, InfoValue, InfoStart, InfoSize, InfoLoad, InfoVersion;
    PrintedEntries(info, digest, epubk, TLVE_IMAGE_TYPE);
    PrintedEntries(info, digest, epubk, TLVE_IMAGE_INFO);
    PrintedEntries(info, digest, epubk, TLVE_IMAGE_HASH);
    PrintedEntries(info, digest, epubk, TLVE_IMAGE_EPUBKEY);
  }

  // ----- the header in flash -----

  lemma NoPadding(align: nat)
    requires align == 1 || align == 2 || align == 4 || align == 8
    ensures PadLength(TLV_HDR_SIZE, align) == 0
  {}

  lemma HeaderOctets(tlv: seq<byte>, signature: seq<byte>, align: nat)
    requires align > 0 && |signature| == SIGNATURE_BYTES
    requires PadLength(TLV_HDR_SIZE, align) + |tlv| + TLV_HDR_SIZE < 0x1_0000
    ensures var b, n := HeaderBytes(tlv, signature, align), TLV_HDR_SIZE + PadLength(TLV_HDR_SIZE, align) + |tlv|;
            && U32(b[0], b[1], b[2], b[3]) == TLV_AREA_MAGIC && U16(b[4], b[5]) == n
            && b[8..72] == signature && b[72..] == Fill(PadLength(TLV_HDR_SIZE, align)) + tlv
  {
    hide PutU32, U32, PutU16, U16, PadLength;
    var n := TLV_HDR_SIZE + PadLength(TLV_HDR_SIZE, align) + |tlv|;
    var b, f, m, l := HeaderBytes(tlv, signature, align), HdrFields(n, signature), PutU32(TLV_AREA_MAGIC), PutU16(n);
    U32RoundTrip(TLV_AREA_MAGIC);
    U16RoundTrip(n);
    assert |f| == 72 && b[..72] == f;
    assert b[0] == f[0] == m[0] && b[1] == f[1] == m[1] && b[2] == f[2] == m[2] && b[3] == f[3] == m[3];
    assert b[4] == f[4] == l[0] && b[5] == f[5] == l[1];
    assert f[8..72] == signature;
    assert b[8..72] == f[8..72];
  }

  // What the reader takes for the TLV area of a header found at `off`.
  lemma HeaderReads(mem: seq<byte>, off: int, tlv: seq<byte>, signature: seq<byte>, align: nat)
    requires align > 0 && |signature| == SIGNATURE_BYTES
    requires PadLength(TLV_HDR_SIZE, align) + |tlv| + TLV_HDR_SIZE < 0x1_0000
    requires var b := HeaderBytes(tlv, signature, align); Slice(mem, off, |b|) == b
    ensures Magic(mem, off) == TLV_AREA_MAGIC && Signature(mem, off) == signature
    ensures TlvAreaSize(mem, off) == |HeaderBytes(tlv, signature, align)|
    ensures TlvArea(mem, off) == Fill(PadLength(TLV_HDR_SIZE, align)) + tlv
  {
    var b := HeaderBytes(tlv, signature, align);
    HeaderOctets(tlv, signature, align);
    hide HeaderBytes, U32, U16, PadLength, Fill;
    var s := Slice(mem, off, |b|);
    assert s[0] == b[0] && s[1] == b[1] && s[2] == b[2] && s[3] == b[3] && s[4] == b[4] && s[5] == b[5];
    SliceTail(mem, off, TLV_HDR_SIZE, |b|);
    SliceTail(mem, off, 8, |b|);
    assert Signature(mem, off) == s[8..][..64] == b[8..72];
  }

  // The reader starts right after the 72 octets of the area header, so padding breaks the agreement: the area is
  // the printed one if and only if the alignment divides the header size.
  lemma PaddingExact(mem: seq<byte>, off: int, tlv: seq<byte>, signature: seq<byte>, align: nat)
    requires align > 0 && |signature| == SIGNATURE_BYTES
    requires PadLength(TLV_HDR_SIZE, align) + |tlv| + TLV_HDR_SIZE < 0x1_0000
    requires var b := HeaderBytes(tlv, signature, align); Slice(mem, off, |b|) == b
    ensures TlvArea(mem, off) == tlv <==> TLV_HDR_SIZE % align == 0
  {
    HeaderReads(mem, off, tlv, signature, align);
    hide Magic, TlvArea, Signature, HeaderBytes;
    if TLV_HDR_SIZE % align == 0 {
      assert Fill(0) + tlv == tlv;
    } else {
      assert |TlvArea(mem, off)| > |tlv|;
    }
  }

  // ----- Image.create and Image.add_header -----

  // The key pair of one encryption: the content key and the ephemeral public key it is derived from.
  datatype Encryption = Encryption(key: seq<byte>, epubk: seq<byte>)

  function Epubk(e: Option<Encryption>): Option<seq<byte>> {
    match e case None => None case Some(x) => Some(x.epubk)
  }

  function Body(aes: Aes, e: Option<Encryption>, plain: seq<byte>): (r: seq<byte>)
    ensures |r| == |plain|
  {
    match e case None => plain case Some(x) => CtrPass(aes, x.key, 0, plain)
  }

  // What the tool encrypts with: the counter starts at sixteen octets of zero, right at the start of the body.
  lemma BodyBlocks(aes: Aes, e: Option<Encryption>, plain: seq<byte>)
    ensures match e
            case None => Body(aes, e, plain) == plain
            case Some(x) => Body(aes, e, plain) == Blocks(aes, x.key, seq<byte>(16, i => 0), plain)
  {
    if e.Some? {
      PassIsBlocks(aes, e.value.key, 0, plain);
      ZeroCounter(16);
    }
  }

  lemma {:induction false} ZeroCounter(len: nat)
    ensures BigEndian(0, len) == seq<byte>(len, i => 0)
  {
    if len > 0 {
      ZeroCounter(len - 1);
    }
  }

  class Image {
    const image_offset: nat
    const slot_size: nat
    const align: nat
    const slot_address: nat
    const version: ImgVer
    var payload: seq<byte>
    var size: nat
    var image_address: nat

    constructor (image_offset: nat, slot_size: nat, align: nat, slot_address: nat, version: ImgVer)
      ensures this.image_offset == image_offset && this.slot_size == slot_size && this.align == align
      ensures this.slot_address == slot_address && this.version == version && payload == []
    {
      this.image_offset, this.slot_size, this.align := image_offset, slot_size, align;
      this.slot_address, this.version := slot_address, version;
      payload, size, image_address := [], 0, 0;
    }

    // Image.load of a binary file, with Image.check.
    method Load(data: seq<byte>) returns (ok: bool)
      modifies this
      ensures payload == Fill(image_offset) + data && size == |data| && image_address == slot_address + image_offset
      ensures ok <==> (slot_size == 0 || |payload| <= slot_size)
    {
      payload, size, image_address := Fill(image_offset) + data, |data|, slot_address + image_offset;
      ok := slot_size == 0 || |payload| <= slot_size;
    }

    // The TLV area of this image.
    function Tlv(digest: seq<byte>, epubk: Option<seq<byte>>): seq<byte>
      reads this
      requires |digest| < 256 && (epubk.Some? ==> |epubk.value| < 256)
    {
      TlvBytes(InfoValue(image_offset, size, image_address, version), digest, epubk)
    }

    // Image.create: encrypt the body if asked to, hash it, and install the header.
    method Create(cr: Crypto, sign: seq<byte> -> seq<byte>, e: Option<Encryption>) returns (ok: bool)
      requires align > 0 && image_offset <= |payload|
      requires (forall s :: |cr.hash(s)| == HASH_BYTES && |sign(s)| == SIGNATURE_BYTES)
      requires e.Some? ==> |e.value.epubk| < 256
      modifies this
      ensures size == old(size) && image_address == old(image_address)
      ensures var b := Body(cr.aes, e, old(payload)[image_offset..]);
              var t := Tlv(cr.hash(b), Epubk(e));
              && (ok <==> FieldsFit(image_offset, size, image_address, version)
                          && TLV_HDR_SIZE + PadLength(TLV_HDR_SIZE, align) + |t| < 0x1_0000)
              && payload == if ok then
                              Installed(HeaderBytes(t, sign(cr.hash(t)), align), old(payload)[..image_offset] + b)
                            else old(payload)[..image_offset] + b
    {
      var epubk := None;
      assert old(payload)[..image_offset] + old(payload)[image_offset..] == old(payload);
      if e.Some? {
        epubk := Some(e.value.epubk);
        payload := payload[..image_offset] + CtrPass(cr.aes, e.value.key, 0, payload[image_offset..]);
      }
      assert payload[image_offset..] == Body(cr.aes, e, old(payload)[image_offset..]);
      ok := AddHeader(cr, sign, cr.hash(payload[image_offset..]), epubk);
    }

    // Image.add_header
    method AddHeader(cr: Crypto, sign: seq<byte> -> seq<byte>, digest: seq<byte>,
                     epubk: Option<seq<byte>>) returns (ok: bool)
      requires align > 0 && |digest| < 256 && (epubk.Some? ==> |epubk.value| < 256)
      requires forall s :: |sign(s)| == SIGNATURE_BYTES
      modifies this
      ensures size == old(size) && image_address == old(image_address)
      ensures var t := Tlv(digest, epubk);
              && (ok <==> FieldsFit(image_offset, size, image_address, version)
                          && TLV_HDR_SIZE + PadLength(TLV_HDR_SIZE, align) + |t| < 0x1_0000)
              && payload == if ok then Installed(HeaderBytes(t, sign(cr.hash(t)), align), old(payload))
                  else old(payload)
    {
      hide PadLength, PutU32, PutU16, Fill, TlvBytes, InfoValue, FieldsFit, HdrFields, Installed, Entry;
      if !FieldsFit(image_offset, size, image_address, version) {
        return false;
      }
      var img_info := InfoValue(image_offset, size, image_address, version);
      var tlv_area := Entry(TLVE_IMAGE_TYPE, [0]);
      tlv_area := tlv_area + Entry(TLVE_IMAGE_INFO, img_info);
      tlv_area := tlv_area + Entry(TLVE_IMAGE_HASH, digest);
      if epubk.Some? {
        tlv_area := tlv_area + Entry(TLVE_IMAGE_EPUBKEY, epubk.value);
      }
      TlvJoined(img_info, digest, epubk);
      HdrLength(0, sign(cr.hash(tlv_area)));
      var tlv_signature := sign(cr.hash(tlv_area));
      var hdr := PadHeader(HdrFields(0, tlv_signature), align);
      var hdr_len := |hdr| + |tlv_area|;
      if hdr_len >= 0x1_0000 {
        return false;
      }
      HdrLength(hdr_len, tlv_signature);
      hdr := PadHeader(HdrFields(hdr_len, tlv_signature), align);
      payload := Installed(hdr + tlv_area, payload);
      ok := true;
    }
  }

  // payload[0:len(hdr)] = hdr
  function Installed(hdr: seq<byte>, payload: seq<byte>): seq<byte> {
    hdr + if |hdr| <= |payload| then payload[|hdr|..] else []
  }

  // The header covers the start of the payload, and nothing else changes; a header longer than the payload extends it.
  lemma InstalledOctets(hdr: seq<byte>, payload: seq<byte>, i: nat)
    requires i < Max(|hdr|, |payload|)
    ensures |Installed(hdr, payload)| == Max(|hdr|, |payload|)
    ensures Installed(hdr, payload)[i] == if i < |hdr| then hdr[i] else payload[i]
  {}

  // The padding loop of add_header.
  method PadHeader(hdr0: seq<byte>, align: nat) returns (hdr: seq<byte>)
    requires align > 0
    ensures hdr == hdr0 + Fill(PadLength(|hdr0|, align))
  {
    hdr := hdr0;
    ghost var k: nat := 0;
    while |hdr| % align != 0
      invariant hdr == hdr0 + Fill(k) && PadLength(|hdr0|, align) == k + PadLength(|hdr|, align)
      decreases PadLength(|hdr|, align)
    {
      hdr := hdr + [EMPTY_U8];
      k := k + 1;
    }
  }

  // ----- from the tool to the device -----

  // What the tool is asked to do.
  datatype Job = Job(e: Option<Encryption>, image_offset: nat, slot_size: nat, slot_address: nat, version: ImgVer,
      align: nat,
                     plain: seq<byte>)
  {
    function Load(): nat { slot_address + image_offset }

    function Content(cr: Crypto): (r: seq<byte>)
      ensures |r| == |plain|
    {
      Body(cr.aes, e, plain)
    }

    // The fields fit, the header leaves the body alone, and a key is one the device can derive.
    ghost predicate Ok(cr: Crypto, sign: seq<byte> -> seq<byte>) {
      && BlockOk(align) && FieldsFit(image_offset, |plain|, Load(), version)
      && |cr.hash(Content(cr))| == HASH_BYTES
      && (e.Some? ==> |e.value.epubk| == PUBLIC_KEY_BYTES && cr.keyOf(e.value.epubk) == Some(e.value.key))
      && |sign(cr.hash(Tlv(cr)))| == SIGNATURE_BYTES
      && |Header(cr, sign)| <= image_offset
    }

    function Tlv(cr: Crypto): seq<byte>
      requires |cr.hash(Content(cr))| == HASH_BYTES && (e.Some? ==> |e.value.epubk| < 256)
    {
      TlvBytes(InfoValue(image_offset, |plain|, Load(), version), cr.hash(Content(cr)), Epubk(e))
    }

    function Header(cr: Crypto, sign: seq<byte> -> seq<byte>): seq<byte>
      requires align > 0 && |cr.hash(Content(cr))| == HASH_BYTES && (e.Some? ==> |e.value.epubk| < 256)
      requires |sign(cr.hash(Tlv(cr)))| == SIGNATURE_BYTES
    {
      HeaderBytes(Tlv(cr), sign(cr.hash(Tlv(cr))), align)
    }

    // The file the tool writes.
    function Product(cr: Crypto, sign: seq<byte> -> seq<byte>): seq<byte>
      requires align > 0 && |cr.hash(Content(cr))| == HASH_BYTES && (e.Some? ==> |e.value.epubk| < 256)
      requires |sign(cr.hash(Tlv(cr)))| == SIGNATURE_BYTES
    {
      Installed(Header(cr, sign), Fill(image_offset) + Content(cr))
    }

    // What the device reads from the header when the file lies at h.
    function Info(cr: Crypto, h: nat): ImgInfo {
      PrintedInfo(cr, h, image_offset, |plain|, Load(), version, Epubk(e))
    }
  }

  // The create command of the tool (scripts/imgtool/main.py).
  method MakeImage(cr: Crypto, sign: seq<byte> -> seq<byte>, job: Job) returns (file: Option<seq<byte>>)
    requires job.align > 0 && (job.e.Some? ==> |job.e.value.epubk| < 256)
    requires forall s :: |cr.hash(s)| == HASH_BYTES && |sign(s)| == SIGNATURE_BYTES
    ensures file.Some? ==> file.value == job.Product(cr, sign)
    ensures job.Ok(cr, sign) && (job.slot_size == 0 || job.image_offset + |job.plain| <= job.slot_size) ==> file.Some?
  {
    hide PadLength, TlvBytes, InfoValue, FieldsFit, HeaderBytes, Installed, Body, CtrPass, Epubk;
    var img := new Image(job.image_offset, job.slot_size, job.align, job.slot_address, job.version);
    var ok := img.Load(job.plain);
    if !ok {
      return None;
    }
    assert img.payload[job.image_offset..] == job.plain && img.payload[..job.image_offset] == Fill(job.image_offset);
    ok := img.Create(cr, sign, job.e);
    ProductLength(cr, sign, job);
    file := if ok then Some(img.payload) else None;
  }

  lemma ProductLength(cr: Crypto, sign: seq<byte> -> seq<byte>, job: Job)
    requires job.align > 0 && |cr.hash(job.Content(cr))| == HASH_BYTES && (job.e.Some? ==> |job.e.value.epubk| < 256)
    ensures job.Ok(cr, sign) ==> TLV_HDR_SIZE + PadLength(TLV_HDR_SIZE, job.align) + |job.Tlv(cr)| < 0x1_0000
  {
    if job.Ok(cr, sign) {
      NoPadding(job.align);
      TlvLength(InfoValue(job.image_offset, |job.plain|, job.Load(), job.version), cr.hash(job.Content(cr)),
                Epubk(job.e));
    }
  }

  lemma TlvLength(info: seq<byte>, digest: seq<byte>, epubk: Option<seq<byte>>)
    requires |info| == IMAGE_INFO_BYTES && |digest| == HASH_BYTES && (epubk.Some? ==> |epubk.value| < 256)
    ensures |TlvBytes(info, digest, epubk)| == 59 + if epubk.Some? then |epubk.value| + 2 else 0
  {}

  // The file lies at the start of slot 1.
  ghost predicate InSlot1(cr: Crypto, area: Area, mem: seq<byte>, job: Job, sign: seq<byte> -> seq<byte>) {
    job.Ok(cr, sign) && Slice(mem, area.slt1_offset, |job.Product(cr, sign)|) == job.Product(cr, sign)
  }

  lemma ProductParts(cr: Crypto, job: Job, sign: seq<byte> -> seq<byte>)
    requires job.Ok(cr, sign)
    ensures var p := job.Product(cr, sign);
            && |p| == job.image_offset + |job.plain| && p[..|job.Header(cr, sign)|] == job.Header(cr, sign)
            && p[job.image_offset..] == job.Content(cr)
  {
    hide Job.Header, Job.Content, Job.Tlv;
  }

  lemma SliceHead(mem: seq<byte>, off: int, n: nat, m: nat)
    requires m <= n
    ensures Slice(mem, off, n)[..m] == Slice(mem, off, m)
  {}

  lemma HeaderInSlot1(cr: Crypto, area: Area, mem: seq<byte>, job: Job, sign: seq<byte> -> seq<byte>)
    requires InSlot1(cr, area, mem, job, sign)
    ensures Magic(mem, area.slt1_offset) == TLV_AREA_MAGIC && TlvArea(mem, area.slt1_offset) == job.Tlv(cr)
    ensures Signature(mem, area.slt1_offset) == sign(cr.hash(job.Tlv(cr)))
  {
    var h, p := job.Header(cr, sign), job.Product(cr, sign);
    ProductParts(cr, job, sign);
    ProductLength(cr, sign, job);
    NoPadding(job.align);
    SliceHead(mem, area.slt1_offset, |p|, |h|);
    hide Job.Content, Job.Tlv, HeaderBytes, Installed, PadLength, Magic, TlvArea, Signature;
    HeaderReads(mem, area.slt1_offset, job.Tlv(cr), sign(cr.hash(job.Tlv(cr))), job.align);
    assert Fill(0) + job.Tlv(cr) == job.Tlv(cr);
  }

  // The device reads from the header what the tool was told to put there.
  lemma DeviceReads(cr: Crypto, area: Area, mem: seq<byte>, job: Job, sign: seq<byte> -> seq<byte>)
    requires InSlot1(cr, area, mem, job, sign)
    ensures ReadInfo(cr, mem, area, 1, 0) == job.Info(cr, area.slt1_offset) && ReadInfo(cr, mem, area, 1, 0).is_valid
  {
    HeaderInSlot1(cr, area, mem, job, sign);
    hide Job.Content, TlvBytes, ParseInfo, InfoValue, Magic, TlvArea, Slice, Job.Product, Job.Header;
    ParsePrinted(cr, area.slt1_offset, job.image_offset, |job.plain|, job.Load(), job.version, cr.hash(job.Content(cr)),
                 Epubk(job.e), None);
  }

  lemma BodyInSlot1(cr: Crypto, area: Area, mem: seq<byte>, job: Job, sign: seq<byte> -> seq<byte>)
    requires InSlot1(cr, area, mem, job, sign)
    ensures Slice(mem, area.slt1_offset + job.image_offset, |job.plain|) == job.Content(cr)
  {
    ProductParts(cr, job, sign);
    SliceTail(mem, area.slt1_offset, job.image_offset, |job.Product(cr, sign)|);
    hide Job.Content, Job.Tlv, Job.Header, Slice, Job.Product;
  }

  // A device that verifies the tool's signatures accepts the image: signature and body hash check out.
  lemma DeviceChecks(cr: Crypto, area: Area, mem: seq<byte>, job: Job, sign: seq<byte> -> seq<byte>)
    requires InSlot1(cr, area, mem, job, sign) && cr.verify(cr.hash(job.Tlv(cr)), sign(cr.hash(job.Tlv(cr))))
    ensures CheckedInfo(cr, mem, area, 1) == job.Info(cr, area.slt1_offset)
  {
    hide Job.Content, Job.Tlv, TlvBytes, ParseInfo, InfoValue, Magic, TlvArea, Slice, Job.Product, Job.Header,
         Signature, FieldsFit, InSlot1, Job.Info;
    HeaderInSlot1(cr, area, mem, job, sign);
    BodyInSlot1(cr, area, mem, job, sign);
    ParseTold(cr, area, mem, job, sign);
  }

  lemma ParseTold(cr: Crypto, area: Area, mem: seq<byte>, job: Job, sign: seq<byte> -> seq<byte>)
    requires InSlot1(cr, area, mem, job, sign)
    ensures var h, digest := area.slt1_offset, cr.hash(job.Content(cr));
            && ParseInfo(cr, job.Tlv(cr), h, None) == job.Info(cr, h)
            && ParseInfo(cr, job.Tlv(cr), h, Some(digest)) == job.Info(cr, h)
            && job.Info(cr, h).start == h + job.image_offset
                && job.Info(cr, h).end == h + job.image_offset + |job.plain|
  {
    hide Job.Content, TlvBytes, ParseInfo, InfoValue, Slice, Job.Product, Job.Header, FieldsFit;
    var digest := cr.hash(job.Content(cr));
    ParsePrinted(cr, area.slt1_offset, job.image_offset, |job.plain|, job.Load(), job.version, digest, Epubk(job.e),
                 None);
    ParsePrinted(cr, area.slt1_offset, job.image_offset, |job.plain|, job.Load(), job.version, digest, Epubk(job.e),
                 Some(digest));
  }

  // Octet i of the image once the device has swapped it in: the header as printed, then the plain image, unless
  // the image runs from RAM and is only decrypted on the way there.
  function Arrived(cr: Crypto, area: Area, job: Job, sign: seq<byte> -> seq<byte>, i: nat): byte
    requires job.Ok(cr, sign) && i < job.image_offset + |job.plain|
  {
    ProductParts(cr, job, sign);
    if i < job.image_offset || InRam(area, job.Load()) then job.Product(cr, sign)[i]
        else job.plain[i - job.image_offset]
  }

  lemma DeviceOctet(cr: Crypto, area: Area, job: Job, sign: seq<byte> -> seq<byte>, h: nat, i: nat)
    requires job.Ok(cr, sign) && i < job.image_offset + |job.plain|
    ensures |job.Product(cr, sign)| == job.image_offset + |job.plain|
    ensures var k := KeepForRam(area, job.Info(cr, h));
            Crypt(cr.aes, k.enc_key, k.enc_start, h + i, job.Product(cr, sign)[i]) == Arrived(cr, area, job, sign, i)
  {
    hide Job.Product, Job.Header, Job.Tlv, Job.Content, Job.Info, Xor, Keystream, FieldsFit, InRam, Crypt, KeepForRam;
    ProductParts(cr, job, sign);
    InfoTold(cr, area, job, sign, h);
    var p, k := job.Product(cr, sign), KeepForRam(area, job.Info(cr, h));
    assert job.image_offset <= i ==> p[i] == p[job.image_offset..][i - job.image_offset];
    if i < job.image_offset || InRam(area, job.Load()) {
      ClearOctet(cr.aes, k, h + i, p[i]);
    } else if job.e.None? {
      PlainContent(cr, job);
      ClearOctet(cr.aes, k, h + i, p[i]);
    } else {
      Decrypts(cr, job, k, h, i - job.image_offset);
    }
  }

  // Where the encrypted part of the image starts for the device.
  lemma InfoTold(cr: Crypto, area: Area, job: Job, sign: seq<byte> -> seq<byte>, h: nat)
    requires job.Ok(cr, sign)
    ensures var k := KeepForRam(area, job.Info(cr, h));
            if InRam(area, job.Load()) || job.e.None? then k.enc_start == h + job.image_offset + |job.plain|
            else k.enc_start == h + job.image_offset && k.enc_key == job.e.value.key
  {
    hide Job.Header, Job.Tlv, Job.Content, FieldsFit, InRam;
  }

  lemma ClearOctet(aes: Aes, k: ImgInfo, p: int, b: byte)
    requires p < k.enc_start
    ensures Crypt(aes, k.enc_key, k.enc_start, p, b) == b
  {}

  lemma PlainContent(cr: Crypto, job: Job)
    requires job.e.None?
    ensures job.Content(cr) == job.plain
  {}

  lemma Decrypts(cr: Crypto, job: Job, k: ImgInfo, h: nat, i: nat)
    requires job.e.Some? && i < |job.plain| && k.enc_start == h + job.image_offset && k.enc_key == job.e.value.key
    ensures Crypt(cr.aes, k.enc_key, k.enc_start, h + job.image_offset + i, job.Content(cr)[i]) == job.plain[i]
  {
    hide Xor, Keystream;
    XorTwice(job.plain[i], Keystream(cr.aes, job.e.value.key, 0, i));
  }

  // From the tool to the device: an image made by the tool, placed in slot 1 and swapped, arrives in slot 0 with
  // its header as printed and its body decrypted; in an in-place swap the same happens in slot 1.
  lemma ToolToDevice(su: Setup, job: Job, sign: seq<byte> -> seq<byte>, r: seq<byte>, i: nat)
    requires su.Ok() && Loaded(su) && InSlot1(su.cr, su.area, su.mem0, job, sign) && Swapped(su, r)
    requires i < job.image_offset + |job.plain|
    ensures At(r, (if su.inplace then su.area.slt1_offset else su.area.slt0_offset) + i)
         == Arrived(su.cr, su.area, job, sign, i)
  {
    hide Setup.Ok, Loaded, ReadInfo, HeaderIn, Arrived, Job.Ok, Job.Product, Crypt, KeepForRam, Job.Info;
    var h := su.area.slt1_offset;
    LoadedFrom(su);
    DeviceReads(su.cr, su.area, su.mem0, job, sign);
    DeviceOctet(su.cr, su.area, job, sign, h, i);
    KeptEnd(su.cr, su.area, job, h);
    FileOctet(su.cr, su.area, su.mem0, job, sign, i);
    InplaceHasLength(su);
    SameImage(su);
    if su.inplace {
      assert At(r, h + i) == OldAfter(su, i);
    } else {
      assert At(r, su.area.slt0_offset + i) == NewAfter(su, i);
    }
  }

  lemma SameImage(su: Setup)
    requires su.Ok()
    ensures su.inplace ==> su.info.to == su.info.fr && su.info.fr.is_valid
  {}

  lemma KeptEnd(cr: Crypto, area: Area, job: Job, h: nat)
    ensures var k := KeepForRam(area, job.Info(cr, h)); k.hdr_start == h && k.end == h + job.image_offset + |job.plain|
  {}

  lemma FileOctet(cr: Crypto, area: Area, mem: seq<byte>, job: Job, sign: seq<byte> -> seq<byte>, i: nat)
    requires InSlot1(cr, area, mem, job, sign) && i < job.image_offset + |job.plain|
    ensures job.Ok(cr, sign) && |job.Product(cr, sign)| == job.image_offset + |job.plain|
    ensures At(mem, area.slt1_offset + i) == job.Product(cr, sign)[i]
  {
    ProductParts(cr, job, sign);
    hide Job.Content, Job.Tlv, Job.Header, Installed;
    var p := job.Product(cr, sign);
    assert Slice(mem, area.slt1_offset, |p|)[i] == At(mem, area.slt1_offset + i);
  }
}
