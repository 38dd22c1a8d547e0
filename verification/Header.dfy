// The image header: zepboot/src/zb_tlv.c and zb_img_get_info of zepboot/src/zb_image.c.
module Header {
  import opened Bytes
  import opened CmdLog
  import opened Digest
  import opened Flash

  const TLV_AREA_MAGIC: nat := 0x544c5641
  const TLV_AREA_MAX_SIZE: nat := 1024
  const TLV_HDR_SIZE: nat := 72
  const TLVE_IMAGE_TYPE: byte := 0x10
  const TLVE_IMAGE_INFO: byte := 0x20
  const TLVE_IMAGE_HASH: byte := 0x30
  const TLVE_IMAGE_EPUBKEY: byte := 0x40
  const IMAGE_INFO_BYTES: nat := 20
  const HASH_BYTES: nat := 32
  const PUBLIC_KEY_BYTES: nat := 64

  datatype ImgVer = ImgVer(major: byte, minor: byte, revision: nat, build: nat)

  // zb_img_info. The source leaves type and enc_key as they were when it finds none; here they are 0 and [].
  datatype ImgInfo = ImgInfo(hdr_start: nat, start: nat, enc_start: nat, end: nat, load_address: nat,
                             version: ImgVer, enc_key: seq<byte>, typ: byte, is_valid: bool)

  datatype TlvEntry = TlvEntry(typ: byte, value: seq<byte>)

  // ----- what a TLV area means -----

  // The entries fill the area exactly.
  predicate WellFormed(tlv: seq<byte>) {
    tlv == [] || (|tlv| >= 2 && tlv[1] + 2 <= |tlv| && WellFormed(tlv[tlv[1] + 2..]))
  }

  function Entries(tlv: seq<byte>): seq<TlvEntry>
    requires WellFormed(tlv)
  {
    if tlv == [] then []
    else [TlvEntry(tlv[0], tlv[2..tlv[1] + 2])] + Entries(tlv[tlv[1] + 2..])
  }

  // The value of the first entry of a type.
  function FindIn(es: seq<TlvEntry>, typ: byte): Option<seq<byte>> {
    if es == [] then None else if es[0].typ == typ then Some(es[0].value) else FindIn(es[1..], typ)
  }

  function Find(tlv: seq<byte>, typ: byte): Option<seq<byte>> {
    if WellFormed(tlv) then FindIn(Entries(tlv), typ) else None
  }

  // Of several entries of one type the first one counts, and the search misses none.
  lemma {:induction false} FindInFirst(es: seq<TlvEntry>, typ: byte)
    ensures FindIn(es, typ).None? <==> forall i :: 0 <= i < |es| ==> es[i].typ != typ
    ensures FindIn(es, typ).Some? ==>
              exists i :: 0 <= i < |es| && es[i] == TlvEntry(typ, FindIn(es, typ).value)
                          && forall j :: 0 <= j < i ==> es[j].typ != typ
  {
    if es != [] && es[0].typ != typ {
      FindInFirst(es[1..], typ);
      if FindIn(es, typ).Some? {
        var i :| 0 <= i < |es| - 1 && es[1..][i] == TlvEntry(typ, FindIn(es, typ).value)
                 && forall j :: 0 <= j < i ==> es[1..][j].typ != typ;
        assert es[i + 1] == es[1..][i];
        assert forall j :: 0 < j < i + 1 ==> es[j] == es[1..][j - 1];
      } else {
        assert forall j :: 0 < j < |es| ==> es[j] == es[1..][j - 1];
      }
    } else if es != [] {
      assert es[0] == TlvEntry(typ, FindIn(es, typ).value);
    }
  }

  // ----- from header to image info -----

  // zb_tlv_img_info, little-endian and packed.
  function InfoStart(v: seq<byte>): nat requires |v| == IMAGE_INFO_BYTES { U32(v[0], v[1], v[2], v[3]) }
  function InfoSize(v: seq<byte>): nat requires |v| == IMAGE_INFO_BYTES { U32(v[4], v[5], v[6], v[7]) }
  function InfoLoad(v: seq<byte>): nat requires |v| == IMAGE_INFO_BYTES { U32(v[8], v[9], v[10], v[11]) }
  function InfoVersion(v: seq<byte>): ImgVer
    requires |v| == IMAGE_INFO_BYTES
  {
    ImgVer(v[12], v[13], U16(v[14], v[15]), U32(v[16], v[17], v[18], v[19]))
  }

  // The info of an image without a usable header in a slot that starts at h.
  function NoInfo(h: nat): ImgInfo {
    ImgInfo(h, h, h, h, h, ImgVer(0, 0, 0, 0), [], 0, false)
  }

  // What the four searches make of the area. `digest` is the hash of the body when it is to be checked.
  function ParseInfo(cr: Crypto, tlv: seq<byte>, h: nat, digest: Option<seq<byte>>): ImgInfo {
    match Find(tlv, TLVE_IMAGE_TYPE)
    case None => NoInfo(h)
    case Some(t) =>
      if |t| != 1 then NoInfo(h) else
      var i1 := NoInfo(h).(typ := t[0]);
      match Find(tlv, TLVE_IMAGE_INFO)
      case None => i1
      case Some(v) =>
        if |v| != IMAGE_INFO_BYTES then i1 else
        var i2 := i1.(start := h + InfoStart(v), end := h + InfoStart(v) + InfoSize(v),
                      load_address := InfoLoad(v), version := InfoVersion(v));
        match Find(tlv, TLVE_IMAGE_HASH)
        case None => i2
        case Some(d) =>
          if |d| != HASH_BYTES || (digest.Some? && digest.value != d) then i2 else
          match Find(tlv, TLVE_IMAGE_EPUBKEY)
          case None => i2.(enc_start := i2.end, is_valid := true)
          case Some(k) =>
            if |k| != PUBLIC_KEY_BYTES then i2.(enc_start := i2.end, is_valid := true) else
            match cr.keyOf(k)
            case None => i2
            case Some(key) => i2.(enc_key := key, enc_start := i2.start, is_valid := true)
  }

  // The entry is there, with the length the reader asks for.
  predicate Has(tlv: seq<byte>, typ: byte, n: nat) {
    match Find(tlv, typ) case None => false case Some(v) => |v| == n
  }

  // The key entry, if there is one, is one the device can derive a key from.
  predicate KeyUsable(cr: Crypto, tlv: seq<byte>) {
    Has(tlv, TLVE_IMAGE_EPUBKEY, PUBLIC_KEY_BYTES) ==> cr.keyOf(Find(tlv, TLVE_IMAGE_EPUBKEY).value).Some?
  }

  // Exactly when a header describes a valid image: type, info and hash are there, the hash is the body's if that is
  // checked, and the key is usable.
  lemma ValidExact(cr: Crypto, tlv: seq<byte>, h: nat, digest: Option<seq<byte>>)
    ensures ParseInfo(cr, tlv, h, digest).is_valid <==>
              && Has(tlv, TLVE_IMAGE_TYPE, 1) && Has(tlv, TLVE_IMAGE_INFO, IMAGE_INFO_BYTES)
              && Has(tlv, TLVE_IMAGE_HASH, HASH_BYTES) && KeyUsable(cr, tlv)
              && (digest.Some? ==> Find(tlv, TLVE_IMAGE_HASH) == digest)
  {
    hide Find, InfoStart, InfoSize, InfoLoad, InfoVersion;
  }

  // What a valid image is taken for: where the info entry says it lies, encrypted from its start on if there is a key.
  lemma ValidInfo(cr: Crypto, tlv: seq<byte>, h: nat, digest: Option<seq<byte>>)
    requires ParseInfo(cr, tlv, h, digest).is_valid
    ensures Has(tlv, TLVE_IMAGE_INFO, IMAGE_INFO_BYTES)
    ensures var i, v := ParseInfo(cr, tlv, h, digest), Find(tlv, TLVE_IMAGE_INFO).value;
            && i.hdr_start == h && i.start == h + InfoStart(v) && i.end == i.start + InfoSize(v)
            && i.load_address == InfoLoad(v) && i.version == InfoVersion(v)
            && Find(tlv, TLVE_IMAGE_TYPE) == Some([i.typ])
            && (if Has(tlv, TLVE_IMAGE_EPUBKEY, PUBLIC_KEY_BYTES) then
                  i.enc_start == i.start && cr.keyOf(Find(tlv, TLVE_IMAGE_EPUBKEY).value) == Some(i.enc_key)
                else i.enc_start == i.end)
  {
    ValidExact(cr, tlv, h, digest);
    var t := Find(tlv, TLVE_IMAGE_TYPE).value;
    assert t == [t[0]];
    hide Find, InfoStart, InfoSize, InfoLoad, InfoVersion;
  }

  function Magic(mem: seq<byte>, off: int): nat {
    U32(At(mem, off), At(mem, off + 1), At(mem, off + 2), At(mem, off + 3))
  }

  function TlvAreaSize(mem: seq<byte>, off: int): nat {
    U16(At(mem, off + 4), At(mem, off + 5))
  }

  function TlvArea(mem: seq<byte>, off: int): seq<byte> {
    var n := TlvAreaSize(mem, off);
    if n < TLV_HDR_SIZE then [] else Slice(mem, off + TLV_HDR_SIZE, n - TLV_HDR_SIZE)
  }

  function Signature(mem: seq<byte>, off: int): seq<byte> {
    Slice(mem, off + 8, 64)
  }

  // What the reader relies on without checking: an area that carries the magic word is complete, fits the
  // buffer of TLV_AREA_MAX_SIZE octets and is made of whole entries.
  ghost predicate HeaderOk(mem: seq<byte>, off: nat) {
    off + TLV_HDR_SIZE <= |mem|
    && (Magic(mem, off) == TLV_AREA_MAGIC ==>
          && TLV_HDR_SIZE <= TlvAreaSize(mem, off) <= TLV_HDR_SIZE + TLV_AREA_MAX_SIZE
          && off + TlvAreaSize(mem, off) <= |mem|
          && WellFormed(TlvArea(mem, off)))
  }

  function SlotOffset(area: Area, slt: nat): nat {
    if slt == 1 then area.slt1_offset else area.slt0_offset
  }

  // zb_img_get_info_nsc without hash check, as used by the swap.
  function ReadInfo(cr: Crypto, mem: seq<byte>, area: Area, slt: nat, eoff: nat): ImgInfo {
    var h := SlotOffset(area, slt);
    if Magic(mem, h + eoff) != TLV_AREA_MAGIC then NoInfo(h)
    else ParseInfo(cr, TlvArea(mem, h + eoff), h, None)
  }

  // zb_img_get_info_wsc with hash check, as used before a swap.
  function CheckedInfo(cr: Crypto, mem: seq<byte>, area: Area, slt: nat): ImgInfo {
    var h := SlotOffset(area, slt);
    if Magic(mem, h) != TLV_AREA_MAGIC || !cr.verify(cr.hash(TlvArea(mem, h)), Signature(mem, h)) then NoInfo(h)
    else
      var i := ParseInfo(cr, TlvArea(mem, h), h, None);
      ParseInfo(cr, TlvArea(mem, h), h, Some(cr.hash(Slice(mem, i.start, i.end - i.start))))
  }

  // Without the magic word there is no image: every place is the start of the slot, and so is the load address.
  lemma NoHeader(cr: Crypto, mem: seq<byte>, area: Area, slt: nat, eoff: nat)
    requires Magic(mem, SlotOffset(area, slt) + eoff) != TLV_AREA_MAGIC
    ensures var i, h := ReadInfo(cr, mem, area, slt, eoff), SlotOffset(area, slt);
            && !i.is_valid && i.hdr_start == i.start == i.enc_start == i.end == i.load_address == h
            && i.version == ImgVer(0, 0, 0, 0)
  {
    hide Magic;
  }

  // Exactly when an image passes the checks: the header carries the magic word and a signature of its area that
  // verifies, the area describes a valid image, and its hash entry is the hash of the octets of the body.
  lemma CheckedExact(cr: Crypto, mem: seq<byte>, area: Area, slt: nat)
    ensures var h, i := SlotOffset(area, slt), ReadInfo(cr, mem, area, slt, 0);
            CheckedInfo(cr, mem, area, slt).is_valid <==>
              && i.is_valid && cr.verify(cr.hash(TlvArea(mem, h)), Signature(mem, h))
              && Find(TlvArea(mem, h), TLVE_IMAGE_HASH) == Some(cr.hash(Slice(mem, i.start, i.end - i.start)))
    ensures CheckedInfo(cr, mem, area, slt).is_valid ==> Magic(mem, SlotOffset(area, slt)) == TLV_AREA_MAGIC
  {
    var h := SlotOffset(area, slt);
    var tlv := TlvArea(mem, h);
    var i := ParseInfo(cr, tlv, h, None);
    ValidExact(cr, tlv, h, None);
    ValidExact(cr, tlv, h, Some(cr.hash(Slice(mem, i.start, i.end - i.start))));
    hide ParseInfo, Has, KeyUsable, Find, Magic, TlvArea, Signature, Slice;
  }

  // Two flash contents with the same octets at h have the same magic word there, and the same area.
  lemma SameMagic(a: seq<byte>, b: seq<byte>, h: int)
    requires SameOn(a, b, h, h + 4)
    ensures Magic(a, h) == Magic(b, h)
  {
    hide U32;
  }

  lemma SameArea(a: seq<byte>, b: seq<byte>, h: int)
    requires SameOn(a, b, h, h + Max(TLV_HDR_SIZE, TlvAreaSize(a, h)))
    ensures Magic(a, h) == Magic(b, h) && TlvAreaSize(a, h) == TlvAreaSize(b, h) && TlvArea(a, h) == TlvArea(b, h)
    ensures Signature(a, h) == Signature(b, h)
  {
    hide U32, U16;
    assert At(a, h + 4) == At(b, h + 4) && At(a, h + 5) == At(b, h + 5);
    assert TlvArea(a, h) == TlvArea(b, h);
    assert Signature(a, h) == Signature(b, h);
  }

  lemma InfoBounds(cr: Crypto, tlv: seq<byte>, h: nat, digest: Option<seq<byte>>)
    ensures var i := ParseInfo(cr, tlv, h, digest);
            && i.hdr_start == h <= i.start <= i.end
            && (i.is_valid ==> i.enc_start == i.start || i.enc_start == i.end)
            && (!i.is_valid ==> i.enc_start == h)
  {}

  // ----- zb_tlv.c -----

  lemma FindStep(tlv: seq<byte>, typ: byte)
    requires WellFormed(tlv) && tlv != []
    ensures WellFormed(tlv[tlv[1] + 2..])
    ensures Find(tlv, typ) == if tlv[0] == typ then Some(tlv[2..tlv[1] + 2]) else Find(tlv[tlv[1] + 2..], typ)
  {
    assert Entries(tlv)[1..] == Entries(tlv[tlv[1] + 2..]);
  }

  lemma SliceOfSlice(s: seq<byte>, lo: nat, hi: nat, n: nat)
    requires lo + 2 + n <= hi <= |s|
    ensures s[lo..hi][2..n + 2] == s[lo + 2..lo + 2 + n]
  {
    var t := s[lo..hi];
    var a, b := t[2..n + 2], s[lo + 2..lo + 2 + n];
    forall i | 0 <= i < n
      ensures a[i] == b[i]
    {
      assert a[i] == t[i + 2] == s[lo + i + 2];
    }
  }

  // zb_step_tlv: read the entry at offset and move offset past it, which is at least two octets further on.
  method StepTlv(data: array<byte>, size: nat, offset: nat) returns (entry: TlvEntry, next: nat)
    requires size <= data.Length && offset < size && WellFormed(data[offset..size])
    ensures offset + 2 <= next <= size && WellFormed(data[next..size])
    ensures forall typ :: Find(data[offset..size], typ)
                       == if entry.typ == typ then Some(entry.value) else Find(data[next..size], typ)
  {
    ghost var rest := data[offset..size];
    var length := data[offset + 1];
    entry := TlvEntry(data[offset], data[offset + 2..offset + 2 + length]);
    next := offset + length + 2;
    assert rest[1] == length;
    assert rest[length + 2..] == data[next..size];
    SliceOfSlice(data[..], offset, size, length);
    assert rest == data[..][offset..size] && entry.value == data[..][offset + 2..offset + 2 + length];
    forall typ
      ensures Find(rest, typ) == if entry.typ == typ then Some(entry.value) else Find(data[next..size], typ)
    {
      FindStep(rest, typ);
    }
  }

  // The search loop of zb_img_get_info, which the source writes out once for each type.
  method FindEntry(data: array<byte>, size: nat, typ: byte) returns (entry: TlvEntry)
    requires size <= data.Length && WellFormed(data[..size]) && typ != 0
    ensures Find(data[..size], typ) == if entry.typ == typ then Some(entry.value) else None
  {
    hide WellFormed, Find;
    var offset := 0;
    entry := TlvEntry(0, []);
    assert data[0..size] == data[..size];
    while entry.typ != typ && offset < size
      invariant offset <= size && WellFormed(data[offset..size])
      invariant Find(data[..size], typ) == if entry.typ == typ then Some(entry.value) else Find(data[offset..size], typ)
      decreases size - offset
    {
      entry, offset := StepTlv(data, size, offset);
    }
    assert offset >= size ==> data[offset..size] == [];
    FindInNothing(typ);
  }

  lemma FindInNothing(typ: byte)
    ensures Find([], typ) == None
  {}

  // zb_open_tlv_area: None stands for -EFAULT.
  method OpenTlvArea(cr: Crypto, flash: FlashDevice, offset: nat, data: array<byte>, validate: bool)
    returns (size: Option<nat>)
    requires flash.Valid() && HeaderOk(flash.mem, offset) && data.Length == TLV_AREA_MAX_SIZE
    modifies data
    ensures size.Some? <==>
              (&& Magic(flash.mem, offset) == TLV_AREA_MAGIC
               && (validate ==> cr.verify(cr.hash(TlvArea(flash.mem, offset)), Signature(flash.mem, offset))))
    ensures size.Some? ==> size.value <= data.Length && data[..size.value] == TlvArea(flash.mem, offset)
  {
    hide WellFormed;
    if Magic(flash.mem, offset) != TLV_AREA_MAGIC {
      return None;
    }
    var data_off := offset + TLV_HDR_SIZE;
    var tlv_size := TlvAreaSize(flash.mem, offset) - TLV_HDR_SIZE;
    if validate {
      var hash := HashFlash(cr, flash, data_off, tlv_size);
      if !cr.verify(hash, Signature(flash.mem, offset)) {
        return None;
      }
    }
    flash.FlashRead(data_off, data, tlv_size);
    size := Some(tlv_size);
  }

  // ----- zb_image.c -----

  // zb_img_get_info. Reading the body hash needs the body to lie in the device.
  method ImgGetInfo(cr: Crypto, flash: FlashDevice, area: Area, slt: nat, eoff: nat, val_tlv: bool, val_img: bool)
    returns (info: ImgInfo)
    requires flash.Valid() && HeaderOk(flash.mem, SlotOffset(area, slt) + eoff)
    requires val_img ==> eoff == 0 && ReadInfo(cr, flash.mem, area, slt, 0).end <= |flash.mem|
    ensures !val_tlv && !val_img ==> info == ReadInfo(cr, flash.mem, area, slt, eoff)
    ensures val_tlv && val_img ==> info == CheckedInfo(cr, flash.mem, area, slt)
  {
    hide WellFormed, Find, TlvArea, Magic, Signature, InfoStart, InfoSize, InfoLoad, InfoVersion;
    var h := SlotOffset(area, slt);
    info := NoInfo(h);
    var tlv := new byte[TLV_AREA_MAX_SIZE];
    var tlv_size := OpenTlvArea(cr, flash, h + eoff, tlv, val_tlv);
    if tlv_size.None? {
      return;
    }
    ghost var t := TlvArea(flash.mem, h + eoff);
    var entry := FindEntry(tlv, tlv_size.value, TLVE_IMAGE_TYPE);
    if entry.typ != TLVE_IMAGE_TYPE || |entry.value| != 1 {
      return;
    }
    info := info.(typ := entry.value[0]);
    entry := FindEntry(tlv, tlv_size.value, TLVE_IMAGE_INFO);
    if entry.typ != TLVE_IMAGE_INFO || |entry.value| != IMAGE_INFO_BYTES {
      return;
    }
    var size := InfoSize(entry.value);
    info := info.(start := h + InfoStart(entry.value), end := h + InfoStart(entry.value) + size,
                  load_address := InfoLoad(entry.value), version := InfoVersion(entry.value));
    entry := FindEntry(tlv, tlv_size.value, TLVE_IMAGE_HASH);
    if entry.typ != TLVE_IMAGE_HASH || |entry.value| != HASH_BYTES {
      return;
    }
    if val_img {
      ParseEnd(cr, t, h);
      var calc_hash := HashFlash(cr, flash, info.start + eoff, size);
      if entry.value != calc_hash {
        return;
      }
    }
    entry := FindEntry(tlv, tlv_size.value, TLVE_IMAGE_EPUBKEY);
    if entry.typ != TLVE_IMAGE_EPUBKEY || |entry.value| != PUBLIC_KEY_BYTES {
      info := info.(enc_start := info.end);
    } else {
      match cr.keyOf(entry.value)
      case None => return;
      case Some(key) => info := info.(enc_key := key, enc_start := info.start);
    }
    info := info.(is_valid := true);
  }

  lemma ParseEnd(cr: Crypto, tlv: seq<byte>, h: nat)
    requires Find(tlv, TLVE_IMAGE_TYPE).Some? && |Find(tlv, TLVE_IMAGE_TYPE).value| == 1
    requires Find(tlv, TLVE_IMAGE_INFO).Some? && |Find(tlv, TLVE_IMAGE_INFO).value| == IMAGE_INFO_BYTES
    ensures var v := Find(tlv, TLVE_IMAGE_INFO).value;
            && ParseInfo(cr, tlv, h, None).start == h + InfoStart(v)
            && ParseInfo(cr, tlv, h, None).end == h + InfoStart(v) + InfoSize(v)
  {
    hide Find, InfoStart, InfoSize, InfoLoad, InfoVersion;
  }
}
