/** The I/NAV page extractor: one 240-bit Galileo I/NAV page (even and odd
    halves concatenated) with the satellite that sent it, the Galileo System
    Time of its first symbol and the band it came on, and the OSNMA fields
    read out of it at fixed offsets. */
module InputFormats {
  import opened Bits

  /** Signal bands the extractor knows. Only E1-B carries OSNMA data. */
  datatype Band = E1B | E5b
  {
    /** The label the band enumeration carries. */
    function Name(): string
    {
      match this
      case E1B => "E1-B"
      case E5b => "E5b-I"
    }
  }

  /** The two bands carry different labels, so comparing bands by label, as
      the string-valued enumeration does, is comparing the bands themselves. */
  lemma BandNamesDistinct(a: Band, b: Band)
    ensures a.Name() == b.Name() <==> a == b
  {
  }

  /** Galileo System Time: week number and time of week, kept opaque. */
  datatype Gst = Gst(wn: int, tow: int)

  /** Why a page is refused. */
  datatype PageError = WrongLength(actual: nat)

  datatype Result<T> = Success(value: T) | Failure(error: PageError)

  datatype Option<T> = None | Some(value: T)

  /** Bits in one nominal page (even and odd halves). */
  const PageBits: nat := 240

  /** The 40-bit OSNMA field is the half-open range [OsnmaStart, OsnmaEnd). */
  const OsnmaStart: nat := 138
  const OsnmaEnd: nat := 178

  /** HKROOT: one byte at the head of the OSNMA field. */
  const HkrootStart: nat := 138
  const HkrootLength: nat := 8

  /** MACK: the 32 bits that follow HKROOT. */
  const MackStart: nat := 146
  const MackLength: nat := 32

  /** Width of the DSM ID and of the block ID in the DSM header byte. */
  const NibbleBits: nat := 4

  /** Period of the HKROOT message, in seconds of time of week, and the
      offset within it of the pages that carry a DSM header. */
  const SubframeSeconds: int := 30
  const DsmHeaderTow: int := 2

  /** A page carries OSNMA data when it came on E1-B and its OSNMA field is
      not all zeros; on any other band the bits are not looked at. */
  function HasOsnma(band: Band, navBits: seq<bool>): (r: bool)
    requires |navBits| == PageBits
    ensures band != E1B ==> !r
    ensures r <==> band == E1B && exists i :: OsnmaStart <= i < OsnmaEnd && navBits[i]
  {
    UintNonZeroIff(navBits[OsnmaStart..OsnmaEnd]);
    assert forall i :: OsnmaStart <= i < OsnmaEnd ==> navBits[OsnmaStart..OsnmaEnd][i - OsnmaStart] == navBits[i];
    if band != E1B then false else Uint(navBits[OsnmaStart..OsnmaEnd]) != 0
  }

  /** Pages whose time of week is 2 seconds into a 30-second period carry
      the DSM header in their HKROOT byte. The remainder is taken with a
      positive divisor, so it lies in 0..29 for negative times too, as the
      floored remainder does: such a time is 2 past a multiple of 30. */
  predicate IsDsmHeaderTow(tow: int): (r: bool)
    ensures r ==> tow - DsmHeaderTow == SubframeSeconds * ((tow - DsmHeaderTow) / SubframeSeconds)
  {
    tow % SubframeSeconds == DsmHeaderTow
  }

  /** Exactly the times 30k + 2, for every integer k, negative ones included,
      are DSM header times; one second later never is. */
  lemma DsmHeaderTowPeriodic(k: int)
    ensures IsDsmHeaderTow(SubframeSeconds * k + DsmHeaderTow)
    ensures !IsDsmHeaderTow(SubframeSeconds * k + DsmHeaderTow + 1)
    ensures IsDsmHeaderTow(-28) && !IsDsmHeaderTow(-2)
  {
  }

  /** The DSM header byte split into its DSM ID (high nibble) and block ID
      (low nibble), as laid down for the HKROOT message in section 3.1 of
      the Galileo OSNMA SIS ICD. Both are 4-bit values, and the byte's value
      is the DSM ID times 16 plus the block ID. */
  function SplitDsmHeader(hkroot: seq<bool>): (r: (seq<bool>, seq<bool>))
    requires |hkroot| == HkrootLength
    ensures |r.0| == NibbleBits && |r.1| == NibbleBits
    ensures r.0 + r.1 == hkroot
    ensures Uint(r.0) < 16 && Uint(r.1) < 16
    ensures Uint(hkroot) == 16 * Uint(r.0) + Uint(r.1)
  {
    var dsmId, bid := hkroot[..NibbleBits], hkroot[NibbleBits..];
    assert dsmId + bid == hkroot;
    UintAppend(dsmId, bid);
    assert Pow2(4) == 16;
    (dsmId, bid)
  }

  /** One I/NAV page with the fields derived from it. A page with a DSM
      header has `dsmId` and `bid` set; on every other page both are None. */
  class DataFormat {
    var navBits: seq<bool>
    var svid: int
    var gstPage: Gst
    var band: Band
    var crc: bool
    var hasOsnma: bool
    var dsmId: Option<seq<bool>>
    var bid: Option<seq<bool>>

    /** The page invariant: exactly 240 bits, the OSNMA flag follows from the
        band and the bits, and the DSM header is set exactly on OSNMA pages
        at a DSM header time of week. */
    ghost predicate Valid()
      reads this
    {
      |navBits| == PageBits
      && hasOsnma == HasOsnma(band, navBits)
      && (dsmId.Some? <==> hasOsnma && IsDsmHeaderTow(gstPage.tow))
      && (bid.Some? <==> dsmId.Some?)
      && (dsmId.Some? ==> (dsmId.value, bid.value) == SplitDsmHeader(GetOsnma().0))
    }

    /** Builds a page from bits already known to be 240 long. */
    constructor (svid: int, wn: int, tow: int, navBits: seq<bool>, band: Band := E1B, crc: bool := true)
      requires |navBits| == PageBits
      ensures Valid()
      ensures this.navBits == navBits && this.svid == svid && this.band == band && this.crc == crc
      ensures gstPage == Gst(wn, tow)
      ensures hasOsnma <==> band == E1B && exists i :: OsnmaStart <= i < OsnmaEnd && navBits[i]
      ensures dsmId.Some? <==> hasOsnma && IsDsmHeaderTow(tow)
      ensures bid.Some? <==> dsmId.Some?
      ensures dsmId.Some? ==> dsmId.value + bid.value == navBits[HkrootStart..HkrootStart + HkrootLength]
      ensures dsmId.Some? ==> Uint(dsmId.value) < 16 && Uint(bid.value) < 16
    {
      this.navBits := navBits;
      this.svid := svid;
      gstPage := Gst(wn, tow);
      this.band := band;
      this.crc := crc;
      dsmId := None;
      bid := None;
      hasOsnma := HasOsnma(band, navBits);
      new;
      if hasOsnma {
        if IsDsmHeaderTow(tow) {
          DsmHeader();
        }
      }
    }

    /** Checks the length before building the page: anything but 240 bits is
        refused and no page is produced. */
    static method Create(svid: int, wn: int, tow: int, navBits: seq<bool>, band: Band := E1B, crc: bool := true)
      returns (r: Result<DataFormat>)
      ensures r.Failure? <==> |navBits| != PageBits
      ensures r.Failure? ==> r.error == WrongLength(|navBits|)
      ensures r.Success? ==> fresh(r.value) && r.value.Valid()
      ensures r.Success? ==> r.value.navBits == navBits && r.value.svid == svid && r.value.band == band
                             && r.value.crc == crc && r.value.gstPage == Gst(wn, tow)
    {
      if |navBits| != PageBits {
        return Failure(WrongLength(|navBits|));
      }
      var page := new DataFormat(svid, wn, tow, navBits, band, crc);
      r := Success(page);
    }

    /** The HKROOT byte and the MACK word of the page. They lie side by side
        and together make up the whole OSNMA field. */
    function GetOsnma(): (r: (seq<bool>, seq<bool>))
      reads this
      requires |navBits| == PageBits
      ensures |r.0| == HkrootLength && |r.1| == MackLength
      ensures r.0 + r.1 == navBits[OsnmaStart..OsnmaEnd]
    {
      var pageHkroot := navBits[HkrootStart..HkrootStart + HkrootLength];
      var pageMack := navBits[MackStart..MackStart + MackLength];
      assert pageHkroot + pageMack == navBits[OsnmaStart..OsnmaEnd];
      (pageHkroot, pageMack)
    }

    /** Reads the DSM header out of the HKROOT byte into `dsmId` and `bid`. */
    method DsmHeader()
      requires |navBits| == PageBits
      requires hasOsnma == HasOsnma(band, navBits) && hasOsnma && IsDsmHeaderTow(gstPage.tow)
      modifies this`dsmId, this`bid
      ensures Valid()
      ensures dsmId.Some? && bid.Some?
      ensures (dsmId.value, bid.value) == SplitDsmHeader(GetOsnma().0)
      ensures dsmId.value + bid.value == GetOsnma().0
      ensures Uint(GetOsnma().0) == 16 * Uint(dsmId.value) + Uint(bid.value)
    {
      var hkroot := GetOsnma().0;
      var (d, b) := SplitDsmHeader(hkroot);
      dsmId := Some(d);
      bid := Some(b);
    }
  }

  /** On a page that satisfies the invariant, OSNMA is present exactly when
      the page came on E1-B and its HKROOT byte or its MACK word is non-zero. */
  lemma OsnmaPresentIffSliceNonZero(p: DataFormat)
    requires p.Valid()
    ensures p.hasOsnma <==> p.band == E1B && (Uint(p.GetOsnma().0) != 0 || Uint(p.GetOsnma().1) != 0)
  {
    var (hk, mack) := p.GetOsnma();
    UintNonZeroIff(hk);
    UintNonZeroIff(mack);
    if AnySet(hk) {
      var i :| 0 <= i < |hk| && hk[i];
      assert p.navBits[HkrootStart + i];
    }
    if AnySet(mack) {
      var i :| 0 <= i < |mack| && mack[i];
      assert p.navBits[MackStart + i];
    }
    if exists i :: OsnmaStart <= i < OsnmaEnd && p.navBits[i] {
      var i :| OsnmaStart <= i < OsnmaEnd && p.navBits[i];
      if i < MackStart {
        assert hk[i - HkrootStart];
      } else {
        assert mack[i - MackStart];
      }
    }
  }

  /** The two slices depend on the page bits alone: two pages with the same
      bits give the same HKROOT and MACK, whatever their band, time or flags. */
  lemma GetOsnmaDependsOnlyOnBits(p: DataFormat, q: DataFormat)
    requires |p.navBits| == PageBits && p.navBits == q.navBits
    ensures p.GetOsnma() == q.GetOsnma()
  {
  }
}
