// The headers once the images are in their places (from phase 3 on): what zb_img_get_info finds there.
module AfterSwap {
  import opened Bytes
  import opened CmdLog
  import opened Digest
  import opened Flash
  import opened Header
  import opened Images
  import opened Recovery
  import opened Swap

  // A header the reader can cope with: no magic word, or a complete area of whole entries in the first sector.
  ghost predicate Readable(mem: seq<byte>, h: int, sector: nat) {
    && 0 <= h && h + TLV_HDR_SIZE <= |mem|
    && (Magic(mem, h) == TLV_AREA_MAGIC ==>
          && TLV_HDR_SIZE <= TlvAreaSize(mem, h) <= sector && TlvAreaSize(mem, h) <= TLV_HDR_SIZE + TLV_AREA_MAX_SIZE
          && h + TlvAreaSize(mem, h) <= |mem|
          && WellFormed(TlvArea(mem, h)))
  }

  // What the swap relies on about the two headers it starts with.
  ghost predicate HeadersOk(su: Setup) {
    && Loaded(su)
    && Readable(su.mem0, su.Fr(), su.area.sector) && Readable(su.mem0, su.To(), su.area.sector)
    && (su.inplace ==>
          && Readable(su.mem0, su.area.slt0_offset, su.area.sector)
          && ReadInfo(su.cr, su.mem0, su.area, 0, 0).end <= su.area.flash_size)
  }

  lemma ReadableSame(a: seq<byte>, b: seq<byte>, h: int, s: nat)
    requires Readable(a, h, s) && SameHeaderOctets(a, b, h) && |a| == |b|
    ensures Readable(b, h, s)
  {
    hide Magic, TlvArea, TlvAreaSize, WellFormed;
    SameMagic(a, b, h);
    if Magic(a, h) == TLV_AREA_MAGIC {
      SameArea(a, b, h);
    }
  }

  lemma ReadableFrom(mem: seq<byte>, at: int, mem0: seq<byte>, from: int, s: nat)
    requires HeaderFrom(mem, at, mem0, from) && Readable(mem0, from, s)
    requires 0 <= at && at + TlvAreaSize(mem0, from) <= |mem|
    ensures Readable(mem, at, s)
  {
    hide U32, U16, WellFormed, Magic, TlvArea, TlvAreaSize;
  }

  // The head of a transformed image is the head of the image.
  lemma HeadMoved(cr: Crypto, area: Area, mem0: seq<byte>, mem: seq<byte>, i: ImgInfo, at: int, img: seq<byte>)
    requires HeaderIn(area, mem0, i) && Holds(mem, at, 0, |img|, Transform(cr.aes, i, img))
    requires |img| == i.end - i.hdr_start && img == Slice(mem0, i.hdr_start, |img|)
    ensures HeaderFrom(mem, at, mem0, i.hdr_start)
  {
    var n := TlvAreaSize(mem0, i.hdr_start);
    hide U32, U16, TlvArea, Transform;
    ImageHead(cr, mem0, mem, i, at, |img|, img, n);
    SameSliceHeader(mem, at, mem0, i.hdr_start, n);
  }

  // Where the images end up, seen from phase 3 on.
  lemma FinalPlaces(su: Setup, p: Pos, mem: seq<byte>)
    requires su.Ok() && Intact(su, p, mem)
    requires p.phase == CMD2_SWP_P3 || p.phase == CMD2_SWP_P4 || p.phase == CMD2_SWP_END
    ensures Holds(mem, su.Fr(), 0, |su.Old()|, su.OldOut()) && Holds(mem, su.To(), 0, |su.New()|, su.NewOut())
    ensures |mem| == su.area.flash_size
    ensures su.OldLen() <= 0 ==> SameOn(su.mem0, mem, su.Fr(), su.Fr() + su.NewLen())
    ensures su.inplace ==> SameOn(su.mem0, mem, su.area.slt0_offset, su.area.Slt0End())
    ensures |su.Old()| == Max(0, su.OldLen()) && |su.New()| == Max(0, su.NewLen())
  {
    SlotsApart(su);
    hide Transform, Setup.Ok;
  }

  // The headers of both slots from phase 3 on.
  lemma FinalHeaders(su: Setup, p: Pos, mem: seq<byte>)
    requires su.Ok() && HeadersOk(su) && Intact(su, p, mem)
    requires p.phase == CMD2_SWP_P3 || p.phase == CMD2_SWP_P4 || p.phase == CMD2_SWP_END
    ensures !su.inplace ==> HeaderFrom(mem, su.area.slt0_offset, su.mem0, su.area.slt1_offset)
    ensures su.inplace ==> SameHeaderOctets(su.mem0, mem, su.area.slt0_offset)
    ensures su.OldLen() > 0 ==> HeaderFrom(mem, su.area.slt1_offset, su.mem0, su.To())
    ensures su.OldLen() <= 0 ==> !su.inplace && SameHeaderOctets(su.mem0, mem, su.area.slt1_offset)
  {
    FinalPlaces(su, p, mem);
    LoadedFrom(su);
    InplaceHasLength(su);
    if !su.inplace {
      NewHeadMoved(su, mem);
    } else {
      SlotZeroHeader(su, mem);
    }
    if su.OldLen() > 0 {
      OldHeadMoved(su, mem);
    } else {
      FrHeaderHeld(su, mem);
    }
  }

  lemma InplaceHasLength(su: Setup)
    requires su.Ok() && Loaded(su)
    ensures su.inplace ==> su.OldLen() > 0 && su.To() == su.area.slt1_offset
  {
    LoadedFrom(su);
    hide Loaded, Area.Ok, EncOk, U32, U16, Sectors;
  }

  lemma NewHeadMoved(su: Setup, mem: seq<byte>)
    requires su.Ok() && Loaded(su) && !su.inplace && Holds(mem, su.To(), 0, |su.New()|, su.NewOut())
    ensures HeaderFrom(mem, su.area.slt0_offset, su.mem0, su.area.slt1_offset)
  {
    LoadedFrom(su);
    SlotsApart(su);
    assert su.NewLen() == su.info.fr.end - su.info.fr.hdr_start >= 0;
    hide Loaded, Setup.Ok, HeaderIn, HeaderFrom, Holds, Transform;
    HeadMoved(su.cr, su.area, su.mem0, mem, su.info.fr, su.To(), su.New());
  }

  lemma OldHeadMoved(su: Setup, mem: seq<byte>)
    requires su.Ok() && Loaded(su) && su.OldLen() > 0 && Holds(mem, su.Fr(), 0, |su.Old()|, su.OldOut())
    ensures HeaderFrom(mem, su.area.slt1_offset, su.mem0, su.To())
  {
    LoadedFrom(su);
    SlotsApart(su);
    assert su.OldLen() == su.info.to.end - su.info.to.hdr_start;
    hide Loaded, Setup.Ok, HeaderIn, HeaderFrom, Holds, Transform;
    HeadMoved(su.cr, su.area, su.mem0, mem, su.info.to, su.Fr(), su.Old());
  }

  lemma FrHeaderHeld(su: Setup, mem: seq<byte>)
    requires su.Ok() && Loaded(su) && !su.inplace && SameOn(su.mem0, mem, su.Fr(), su.Fr() + su.NewLen())
    ensures SameHeaderOctets(su.mem0, mem, su.area.slt1_offset)
  {
    LoadedFrom(su);
    assert su.NewLen() == su.info.fr.end - su.info.fr.hdr_start;
    hide Loaded, Setup.Ok, U32, U16;
  }

  lemma SlotZeroHeader(su: Setup, mem: seq<byte>)
    requires su.Ok() && HeadersOk(su) && su.inplace && SameOn(su.mem0, mem, su.area.slt0_offset, su.area.Slt0End())
    ensures SameHeaderOctets(su.mem0, mem, su.area.slt0_offset)
  {
    LoadedSizes(su);
    assert su.area.sector <= su.area.slt0_size - su.area.sector;
    hide Loaded, Setup.Ok, U32, U16, WellFormed;
    WithinSector(su.mem0, mem, su.area.slt0_offset, su.area.sector);
  }

  // The info of a valid image after it has been moved to h.
  function MovedTo(i: ImgInfo, h: nat): ImgInfo
    requires i.hdr_start <= i.start && i.hdr_start <= i.enc_start && i.hdr_start <= i.end
  {
    i.(hdr_start := h, start := h + (i.start - i.hdr_start), enc_start := h + (i.enc_start - i.hdr_start),
       end := h + (i.end - i.hdr_start))
  }

  lemma ParseMoved(cr: Crypto, tlv: seq<byte>, h: nat, h': nat)
    requires ParseInfo(cr, tlv, h, None).is_valid
    ensures var i := ParseInfo(cr, tlv, h, None);
            h == i.hdr_start <= i.start <= i.end && i.start <= i.enc_start <= i.end
            && ParseInfo(cr, tlv, h', None) == MovedTo(i, h')
  {
    hide Find, InfoStart, InfoSize, InfoLoad, InfoVersion;
  }

  // The reader finds in slot `slt` the info it found at `from` before the swap, moved along.
  lemma InfoFrom(cr: Crypto, area: Area, mem: seq<byte>, slt: nat, mem0: seq<byte>, slt0: nat)
    requires HeaderFrom(mem, SlotOffset(area, slt), mem0, SlotOffset(area, slt0))
    requires ReadInfo(cr, mem0, area, slt0, 0).is_valid
    ensures var i := ReadInfo(cr, mem0, area, slt0, 0);
            && i.hdr_start <= i.start <= i.end && i.hdr_start <= i.enc_start <= i.end
            && ReadInfo(cr, mem, area, slt, 0) == MovedTo(i, SlotOffset(area, slt))
  {
    hide ParseInfo, Magic, TlvArea, TlvAreaSize;
    ParseMoved(cr, TlvArea(mem0, SlotOffset(area, slt0)), SlotOffset(area, slt0), SlotOffset(area, slt));
  }

  lemma HeadersLoaded(su: Setup)
    requires HeadersOk(su)
    ensures Loaded(su)
  {}

  // The lengths of the images, as the headers give them.
  lemma LoadedLengths(su: Setup)
    requires su.Ok() && Loaded(su) && !su.inplace
    ensures var i := ReadInfo(su.cr, su.mem0, su.area, 1, 0);
            i.is_valid && i.hdr_start == su.area.slt1_offset && i.end - i.hdr_start == su.NewLen()
    ensures var j := ReadInfo(su.cr, su.mem0, su.area, 0, 0);
            su.OldLen() > 0 ==> j.is_valid && j.hdr_start == su.area.slt0_offset && j.end - j.hdr_start == su.OldLen()
  {
    hide ReadInfo, HeaderIn, Area.Ok, Sectors, EncOk;
    LoadedFrom(su);
  }

  // From phase 3 of a classic swap on, slot 0 is described by the new image's info and slot 1 by the old image's.
  lemma FinalInfos(su: Setup, p: Pos, mem: seq<byte>)
    requires su.Ok() && HeadersOk(su) && Intact(su, p, mem) && !su.inplace
    requires p.phase == CMD2_SWP_P3 || p.phase == CMD2_SWP_P4 || p.phase == CMD2_SWP_END
    ensures var i := ReadInfo(su.cr, su.mem0, su.area, 1, 0);
            && i.is_valid && i.hdr_start <= i.start <= i.end && i.hdr_start <= i.enc_start <= i.end
            && i.end - i.hdr_start == su.NewLen()
            && ReadInfo(su.cr, mem, su.area, 0, 0) == MovedTo(i, su.area.slt0_offset)
            && (su.OldLen() <= 0 ==> ReadInfo(su.cr, mem, su.area, 1, 0) == i)
    ensures var j := ReadInfo(su.cr, su.mem0, su.area, 0, 0);
            su.OldLen() > 0 ==>
              && j.is_valid && j.hdr_start <= j.start <= j.end && j.hdr_start <= j.enc_start <= j.end
              && j.end - j.hdr_start == su.OldLen()
              && ReadInfo(su.cr, mem, su.area, 1, 0) == MovedTo(j, su.area.slt1_offset)
  {
    hide Setup.Ok, HeadersOk, Intact, ReadInfo, HeaderFrom, HeaderIn, SameHeaderOctets, KeepForRam, Setup.OldLen,
         Setup.NewLen;
    FinalHeaders(su, p, mem);
    HeadersLoaded(su);
    LoadedFrom(su);
    LoadedLengths(su);
    InfoFrom(su.cr, su.area, mem, 0, su.mem0, 1);
    if su.OldLen() > 0 {
      InfoFrom(su.cr, su.area, mem, 1, su.mem0, 0);
    } else {
      SameHeader(su.cr, su.area, su.mem0, mem, 1);
    }
  }

  // Phase 3 finds headers it can read in both slots, of images that lie in the device.
  lemma FinalReadable(su: Setup, p: Pos, mem: seq<byte>)
    requires su.Ok() && HeadersOk(su) && Intact(su, p, mem)
    requires p.phase == CMD2_SWP_P3 || p.phase == CMD2_SWP_P4 || p.phase == CMD2_SWP_END
    ensures Readable(mem, su.area.slt0_offset, su.area.sector) && Readable(mem, su.area.slt1_offset, su.area.sector)
    ensures ReadInfo(su.cr, mem, su.area, 0, 0).end <= |mem| && ReadInfo(su.cr, mem, su.area, 1, 0).end <= |mem|
  {
    FinalHeaders(su, p, mem);
    LoadedFrom(su);
    LoadedSizes(su);
    SizesFit(su);
    assert |mem| == su.area.flash_size == |su.mem0|;
    assert Readable(su.mem0, su.Fr(), su.area.sector) && Readable(su.mem0, su.To(), su.area.sector);
    hide Setup.Ok, Intact, ReadInfo, HeaderFrom, HeaderIn, SameHeaderOctets, Readable;
    if su.inplace {
      InplaceReadable(su, mem);
    } else {
      FinalInfos(su, p, mem);
      ReadableFrom(mem, su.area.slt0_offset, su.mem0, su.Fr(), su.area.sector);
      if su.OldLen() > 0 {
        OldReadable(su, mem);
      } else {
        ReadableSame(su.mem0, mem, su.area.slt1_offset, su.area.sector);
      }
    }
  }

  lemma SizesFit(su: Setup)
    requires su.Ok()
    ensures su.area.slt0_offset + su.area.sector <= su.area.flash_size
    ensures su.area.slt1_offset + su.area.sector <= su.area.flash_size
    ensures su.area.slt0_offset + su.NewLen() <= su.area.flash_size
    ensures su.area.slt1_offset + su.NewLen() <= su.area.flash_size
    ensures su.area.slt1_offset + su.OldLen() <= su.area.flash_size
    ensures 0 <= su.area.slt0_offset && 0 <= su.area.slt1_offset
  {
    hide Sectors, EncOk;
  }

  lemma OldReadable(su: Setup, mem: seq<byte>)
    requires su.Ok() && HeadersOk(su) && su.OldLen() > 0 && |mem| == su.area.flash_size
    requires HeaderFrom(mem, su.area.slt1_offset, su.mem0, su.To())
    ensures Readable(mem, su.area.slt1_offset, su.area.sector)
  {
    LoadedSizes(su);
    SizesFit(su);
    assert Magic(su.mem0, su.To()) == TLV_AREA_MAGIC;
    hide Setup.Ok, WellFormed, Loaded, TlvArea, TlvAreaSize, Magic;
    ReadableFrom(mem, su.area.slt1_offset, su.mem0, su.To(), su.area.sector);
  }

  lemma InplaceReadable(su: Setup, mem: seq<byte>)
    requires su.Ok() && HeadersOk(su) && su.inplace && |mem| == su.area.flash_size
    requires HeaderFrom(mem, su.area.slt1_offset, su.mem0, su.To())
    requires SameHeaderOctets(su.mem0, mem, su.area.slt0_offset)
    ensures Readable(mem, su.area.slt0_offset, su.area.sector) && Readable(mem, su.area.slt1_offset, su.area.sector)
    ensures ReadInfo(su.cr, mem, su.area, 0, 0).end <= |mem| && ReadInfo(su.cr, mem, su.area, 1, 0).end <= |mem|
  {
    LoadedFrom(su);
    InplaceHasLength(su);
    SizesFit(su);
    OldReadable(su, mem);
    assert |su.mem0| == su.area.flash_size && su.info.fr.is_valid && su.info.fr == su.info.to;
    assert Readable(su.mem0, su.area.slt0_offset, su.area.sector);
    assert su.OldLen() == su.info.fr.end - su.info.fr.hdr_start;
    hide Setup.Ok, Readable, HeaderFrom, SameHeaderOctets, ReadInfo, HeaderIn, Loaded;
    ReadableSame(su.mem0, mem, su.area.slt0_offset, su.area.sector);
    SameHeader(su.cr, su.area, su.mem0, mem, 0);
    InfoFrom(su.cr, su.area, mem, 1, su.mem0, 1);
  }
}
