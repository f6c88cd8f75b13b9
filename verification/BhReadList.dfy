/** The read list of a Bell+Howell scan: what is read from each page, image frames first, and how
    successive starts work their way through it. */
module BhReadList {
  import opened BhSections
  import opened RowMath

  const NUM_READS: nat := 57

  const FRONT_PAGE: nat := 0x80
  const BACK_PAGE: nat := 0x90
  const FRONT_BARCODE: nat := 0xA0
  const BACK_BARCODE: nat := 0xB0
  const FRONT_PATCHCODE: nat := 0xC0
  const BACK_PATCHCODE: nat := 0xD0
  const FRONT_ICON: nat := 0x89
  const BACK_ICON: nat := 0x99
  const SEND_BAR_FILE: nat := 0xBB

  predicate HasImageData(item: nat) {
    FRONT_PAGE <= item <= BACK_ICON
  }

  predicate IsIcon(item: nat) {
    item == FRONT_ICON || item == BACK_ICON
  }

  // ---------- The list ----------

  /** What a batch is set up for. */
  datatype Job = Job(res: nat, format: Format, preview: bool, duplex: bool, icons: bool, barcodes: bool,
                     patchcodes: bool, disableOptionalFrames: bool, sections: seq<Section>)

  /** The reads of the first n sections that one pair of function codes asks for: section i + 1 on the
      front page and then on the back. */
  function SectionReads(sections: seq<Section>, front: nat, frontCode: Code, back: nat, backCode: Code, n: nat)
    : seq<nat>
    requires n <= |sections|
  {
    if n == 0 then []
    else
      SectionReads(sections, front, frontCode, back, backCode, n - 1) +
      (if frontCode in sections[n - 1].flags then [front + n] else []) +
      (if backCode in sections[n - 1].flags then [back + n] else [])
  }

  /** A read of the whole pages. */
  function PageReads(job: Job, front: nat, back: nat): (r: seq<nat>)
    ensures |r| > 0
  {
    if job.duplex then [front, back] else [front]
  }

  /** The reads that decode: the sections', or the whole pages' if there are none. */
  function DecodeReads(job: Job, front: nat, frontCode: Code, back: nat, backCode: Code): seq<nat> {
    if job.sections == [] then PageReads(job, front, back)
    else SectionReads(job.sections, front, frontCode, back, backCode, |job.sections|)
  }

  function Images(job: Job): (r: seq<nat>)
    ensures |r| > 0
  {
    PageReads(job, FRONT_PAGE, BACK_PAGE) +
    SectionReads(job.sections, FRONT_PAGE, Front, BACK_PAGE, Back, |job.sections|) +
    (if job.icons then PageReads(job, FRONT_ICON, BACK_ICON) else [])
  }

  function Decodes(job: Job): seq<nat> {
    (if job.barcodes then DecodeReads(job, FRONT_BARCODE, FrontBar, BACK_BARCODE, BackBar) else []) +
    (if job.patchcodes then DecodeReads(job, FRONT_PATCHCODE, FrontPatch, BACK_PATCHCODE, BackPatch) else [])
  }

  /** The whole list: the images, then what is to be decoded, and then, if there is any of that, the
      item that delivers it. */
  function ReadList(job: Job): seq<nat> {
    Images(job) + Decodes(job) + (if Decodes(job) == [] then [] else [SEND_BAR_FILE])
  }

  /** The frames a frontend sees: all that is decoded comes as one. */
  function Frames(job: Job): (r: seq<nat>)
    ensures |r| > 0
  {
    Images(job) + (if Decodes(job) == [] then [] else [SEND_BAR_FILE])
  }

  // ---------- Its properties ----------

  ghost predicate Distinct(s: seq<nat>) {
    forall i, j | 0 <= i < j < |s| :: s[i] != s[j]
  }

  ghost predicate Within(s: seq<nat>, low: nat, high: nat) {
    forall i | 0 <= i < |s| :: low <= s[i] <= high
  }

  lemma DistinctSum(s: seq<nat>, t: seq<nat>)
    requires Distinct(s) && Distinct(t)
    requires forall i, j | 0 <= i < |s| && 0 <= j < |t| :: s[i] != t[j]
    ensures Distinct(s + t)
  {
  }

  /** Section reads are few, distinct, and within the codes of their kind. */
  lemma {:induction false} SectionReadsSound(sections: seq<Section>, front: nat, frontCode: Code, back: nat,
                                             backCode: Code, n: nat)
    requires n <= |sections| && front + |sections| < back
    ensures var s := SectionReads(sections, front, frontCode, back, backCode, n);
            && |s| <= 2 * n && Distinct(s)
            && forall i | 0 <= i < |s| :: front + 1 <= s[i] <= front + n || back + 1 <= s[i] <= back + n
  {
    if n > 0 {
      SectionReadsSound(sections, front, frontCode, back, backCode, n - 1);
    }
  }

  lemma DecodeReadsSound(job: Job, front: nat, frontCode: Code, back: nat, backCode: Code)
    requires |job.sections| <= NUM_SECTIONS && front + 16 == back
    ensures var s := DecodeReads(job, front, frontCode, back, backCode);
            |s| <= 16 && Distinct(s)
            && forall i | 0 <= i < |s| :: front <= s[i] <= front + 8 || back <= s[i] <= back + 8
  {
    SectionReadsSound(job.sections, front, frontCode, back, backCode, |job.sections|);
  }

  lemma ImagesSound(job: Job)
    requires |job.sections| <= NUM_SECTIONS
    ensures 1 <= |Images(job)| <= 20 && Images(job)[0] == FRONT_PAGE && Distinct(Images(job))
    ensures forall i | 0 <= i < |Images(job)| :: HasImageData(Images(job)[i])
  {
    SectionReadsSound(job.sections, FRONT_PAGE, Front, BACK_PAGE, Back, |job.sections|);
    var pages := PageReads(job, FRONT_PAGE, BACK_PAGE);
    var sections := SectionReads(job.sections, FRONT_PAGE, Front, BACK_PAGE, Back, |job.sections|);
    var icons := if job.icons then PageReads(job, FRONT_ICON, BACK_ICON) else [];
    DistinctSum(pages, sections);
    DistinctSum(pages + sections, icons);
  }

  lemma DecodesSound(job: Job)
    requires |job.sections| <= NUM_SECTIONS
    ensures |Decodes(job)| <= 32 && Distinct(Decodes(job))
    ensures forall i | 0 <= i < |Decodes(job)| :: !HasImageData(Decodes(job)[i]) && Decodes(job)[i] != SEND_BAR_FILE
  {
    DecodeReadsSound(job, FRONT_BARCODE, FrontBar, BACK_BARCODE, BackBar);
    DecodeReadsSound(job, FRONT_PATCHCODE, FrontPatch, BACK_PATCHCODE, BackPatch);
    DistinctSum(if job.barcodes then DecodeReads(job, FRONT_BARCODE, FrontBar, BACK_BARCODE, BackBar) else [],
                if job.patchcodes then DecodeReads(job, FRONT_PATCHCODE, FrontPatch, BACK_PATCHCODE, BackPatch)
                else []);
  }

  /** The list never overflows and names nothing twice; the images come before everything that is
      decoded; and the item that delivers this stands at the end, just when there is something to deliver. */
  lemma ReadListSound(job: Job)
    requires |job.sections| <= NUM_SECTIONS
    ensures var list, images := ReadList(job), |Images(job)|;
            && 1 <= |list| <= 53 && list[0] == FRONT_PAGE && Distinct(list)
            && (forall i | 0 <= i < |list| :: HasImageData(list[i]) <==> i < images)
            && (forall i | 0 <= i < |list| :: list[i] == SEND_BAR_FILE <==> i == |list| - 1 && images < |list|)
            && (Decodes(job) == [] <==> images == |list|)
  {
    ImagesSound(job);
    DecodesSound(job);
    DistinctSum(Images(job), Decodes(job));
    DistinctSum(Images(job) + Decodes(job), [SEND_BAR_FILE]);
  }

  // ---------- What is in it ----------

  /** The item is that of a section with the function code: section i + 1 is the item `page` plus i + 1. */
  predicate OfSection(job: Job, item: nat, page: nat, code: Code) {
    page < item <= page + |job.sections| && code in job.sections[item - page - 1].flags
  }

  /** An image is read: each page, each section of a page that is to be read, and the icon of each page. */
  predicate WantsImage(job: Job, item: nat) {
    || item == 0x80 || (item == 0x90 && job.duplex)
    || OfSection(job, item, 0x80, Front) || OfSection(job, item, 0x90, Back)
    || (item == 0x89 && job.icons) || (item == 0x99 && job.icons && job.duplex)
  }

  /** Codes are decoded: those of each page, or of each section that asks for it when there are sections. */
  predicate WantsCodes(job: Job, item: nat, front: nat, frontCode: Code, back: nat, backCode: Code) {
    if job.sections == [] then item == front || (item == back && job.duplex)
    else OfSection(job, item, front, frontCode) || OfSection(job, item, back, backCode)
  }

  predicate WantsDecode(job: Job, item: nat) {
    || (job.barcodes && WantsCodes(job, item, 0xA0, FrontBar, 0xB0, BackBar))
    || (job.patchcodes && WantsCodes(job, item, 0xC0, FrontPatch, 0xD0, BackPatch))
  }

  /** The order of the items: images before bar codes before patch codes; of each, the pages, then section by
      section, then the icons; and always front before back. */
  function Rank(item: nat): nat {
    32 * (item / 32) + 2 * (item % 16) + item / 16 % 2
  }

  ghost predicate Ascending(s: seq<nat>) {
    forall i, j | 0 <= i < j < |s| :: Rank(s[i]) < Rank(s[j])
  }

  /** The list holds the images and then what is to be decoded, in order and nothing else, and then the item
      that delivers what has been decoded, if anything has. */
  ghost predicate Lists(job: Job, list: seq<nat>, images: nat)
    requires images <= |list|
  {
    && (forall item: nat :: item in list[..images] <==> WantsImage(job, item))
    && (list[images..] == [] <==> forall item: nat :: !WantsDecode(job, item))
    && (list[images..] != [] ==>
          && list[|list| - 1] == 0xBB
          && forall item: nat :: item in list[images..|list| - 1] <==> WantsDecode(job, item))
    && Ascending(if images == |list| then list else list[..|list| - 1])
  }

  lemma {:induction false} SectionReadsHold(job: Job, front: nat, frontCode: Code, back: nat, backCode: Code, n: nat,
                                            item: nat)
    requires n <= |job.sections| && front + |job.sections| < back
    ensures item in SectionReads(job.sections, front, frontCode, back, backCode, n) <==>
            || (OfSection(job, item, front, frontCode) && item <= front + n)
            || (OfSection(job, item, back, backCode) && item <= back + n)
  {
    if n == 0 {
      assert !(OfSection(job, item, front, frontCode) && item <= front);
      assert !(OfSection(job, item, back, backCode) && item <= back);
    } else {
      SectionReadsHold(job, front, frontCode, back, backCode, n - 1, item);
      OneSection(job, item, front, frontCode, n);
      OneSection(job, item, back, backCode, n);
      hide OfSection;
    }
  }

  lemma OneSection(job: Job, item: nat, page: nat, code: Code, n: nat)
    requires 0 < n <= |job.sections|
    ensures OfSection(job, item, page, code) && item <= page + n <==>
            || (OfSection(job, item, page, code) && item <= page + n - 1)
            || (item == page + n && code in job.sections[n - 1].flags)
  {
  }

  lemma DecodeReadsHold(job: Job, front: nat, frontCode: Code, back: nat, backCode: Code, item: nat)
    requires |job.sections| <= NUM_SECTIONS && front + 16 == back
    ensures item in DecodeReads(job, front, frontCode, back, backCode) <==>
            WantsCodes(job, item, front, frontCode, back, backCode)
  {
    SectionReadsHold(job, front, frontCode, back, backCode, |job.sections|, item);
  }

  lemma ImagesHold(job: Job, item: nat)
    requires |job.sections| <= NUM_SECTIONS
    ensures item in Images(job) <==> WantsImage(job, item)
  {
    SectionReadsHold(job, FRONT_PAGE, Front, BACK_PAGE, Back, |job.sections|, item);
    hide SectionReads, OfSection;
  }

  lemma DecodesHold(job: Job, item: nat)
    requires |job.sections| <= NUM_SECTIONS
    ensures item in Decodes(job) <==> WantsDecode(job, item)
  {
    DecodeReadsHold(job, FRONT_BARCODE, FrontBar, BACK_BARCODE, BackBar, item);
    DecodeReadsHold(job, FRONT_PATCHCODE, FrontPatch, BACK_PATCHCODE, BackPatch, item);
    hide DecodeReads, WantsCodes;
  }

  lemma AscendingSum(s: seq<nat>, t: seq<nat>, bound: nat)
    requires Ascending(s) && Ascending(t)
    requires (forall i | 0 <= i < |s| :: Rank(s[i]) < bound) && forall i | 0 <= i < |t| :: bound <= Rank(t[i])
    ensures Ascending(s + t)
  {
    hide Rank;
  }

  /** The reads of one kind, by rank. */
  ghost predicate Ranked(s: seq<nat>, low: nat, high: nat) {
    Ascending(s) && forall i | 0 <= i < |s| :: low <= Rank(s[i]) < high
  }

  lemma {:induction false} SectionReadsRanked(job: Job, front: nat, frontCode: Code, back: nat, backCode: Code, n: nat)
    requires n <= |job.sections| <= NUM_SECTIONS && front % 32 == 0 && front + 16 == back
    ensures Ranked(SectionReads(job.sections, front, frontCode, back, backCode, n), front + 2, front + 2 * n + 2)
  {
    hide Rank;
    if n > 0 {
      SectionReadsRanked(job, front, frontCode, back, backCode, n - 1);
      RankOf(front, n);
    }
  }

  lemma RankOf(front: nat, n: nat)
    requires front % 32 == 0 && n <= NUM_SECTIONS
    ensures Rank(front + n) == front + 2 * n && Rank(front + 16 + n) == front + 2 * n + 1
  {
    var q := front / 32;
    assert front == 32 * q;
    Remainder(front + n, 32, q, n);
    Remainder(front + 16 + n, 32, q, 16 + n);
    Remainder(front + n, 16, 2 * q, n);
    Remainder(front + 16 + n, 16, 2 * q + 1, n);
  }

  lemma PageReadsRanked(job: Job, front: nat, back: nat)
    requires Rank(back) == Rank(front) + 1
    ensures Ranked(PageReads(job, front, back), Rank(front), Rank(front) + 2)
  {
    hide Rank;
  }

  lemma DecodeReadsRanked(job: Job, front: nat, frontCode: Code, back: nat, backCode: Code)
    requires |job.sections| <= NUM_SECTIONS && front % 32 == 0 && front + 16 == back
    ensures Ranked(DecodeReads(job, front, frontCode, back, backCode), front, front + 18)
  {
    hide Rank;
    RankOf(front, 0);
    PageReadsRanked(job, front, back);
    SectionReadsRanked(job, front, frontCode, back, backCode, |job.sections|);
    hide PageReads, SectionReads;
  }

  lemma ImagesRanked(job: Job)
    requires |job.sections| <= NUM_SECTIONS
    ensures Ranked(Images(job), 0x80, 0xA0)
  {
    assert Rank(FRONT_PAGE) == 0x80 && Rank(BACK_PAGE) == 0x81;
    assert Rank(FRONT_ICON) == 0x92 && Rank(BACK_ICON) == 0x93;
    var pages := PageReads(job, FRONT_PAGE, BACK_PAGE);
    var sections := SectionReads(job.sections, FRONT_PAGE, Front, BACK_PAGE, Back, |job.sections|);
    var icons := if job.icons then PageReads(job, FRONT_ICON, BACK_ICON) else [];
    PageReadsRanked(job, FRONT_PAGE, BACK_PAGE);
    SectionReadsRanked(job, FRONT_PAGE, Front, BACK_PAGE, Back, |job.sections|);
    PageReadsRanked(job, FRONT_ICON, BACK_ICON);
    hide Rank, PageReads, SectionReads;
    AscendingSum(pages, sections, 0x82);
    AscendingSum(pages + sections, icons, 0x92);
  }

  lemma DecodesRanked(job: Job)
    requires |job.sections| <= NUM_SECTIONS
    ensures Ranked(Decodes(job), 0xA0, 0xE0)
  {
    var bars := if job.barcodes then DecodeReads(job, FRONT_BARCODE, FrontBar, BACK_BARCODE, BackBar) else [];
    var patches :=
      if job.patchcodes then DecodeReads(job, FRONT_PATCHCODE, FrontPatch, BACK_PATCHCODE, BackPatch) else [];
    DecodeReadsRanked(job, FRONT_BARCODE, FrontBar, BACK_BARCODE, BackBar);
    DecodeReadsRanked(job, FRONT_PATCHCODE, FrontPatch, BACK_PATCHCODE, BackPatch);
    hide Rank, DecodeReads;
    AscendingSum(bars, patches, 0xC0);
  }

  /** The read list holds exactly what the job asks for, in order. */
  lemma ReadListHolds(job: Job)
    requires |job.sections| <= NUM_SECTIONS
    ensures Lists(job, ReadList(job), |Images(job)|)
  {
    forall item: nat
      ensures item in Images(job) <==> WantsImage(job, item)
      ensures item in Decodes(job) <==> WantsDecode(job, item)
    {
      ImagesHold(job, item);
      DecodesHold(job, item);
    }
    ImagesRanked(job);
    DecodesRanked(job);
    hide Images, Decodes, WantsImage, WantsDecode;
    ListOf(job, Images(job), Decodes(job));
  }

  lemma ListOf(job: Job, images: seq<nat>, decodes: seq<nat>)
    requires Ranked(images, 0x80, 0xA0) && Ranked(decodes, 0xA0, 0xE0)
    requires forall item: nat :: item in images <==> WantsImage(job, item)
    requires forall item: nat :: item in decodes <==> WantsDecode(job, item)
    ensures Lists(job, images + decodes + (if decodes == [] then [] else [0xBB]), |images|)
  {
    hide WantsImage, WantsDecode, Rank;
    AscendingSum(images, decodes, 0xA0);
    var list := images + decodes + if decodes == [] then [] else [0xBB];
    assert list[..|images|] == images;
    if decodes == [] {
      assert list == images == images + decodes;
    } else {
      assert decodes[0] in decodes;
      assert list[|images|..|list| - 1] == decodes && list[..|list| - 1] == images + decodes;
      assert list[|images|..] != [];
    }
  }

  /** The order and the items leave no choice: two lists that rise in rank and hold the same items are the same. */
  lemma {:induction false} OneOrder(s: seq<nat>, t: seq<nat>)
    requires Ascending(s) && Ascending(t) && forall item: nat :: item in s <==> item in t
    ensures s == t
  {
    hide Rank;
    assert s != [] ==> s[0] in s;
    assert t != [] ==> t[0] in t;
    if s != [] {
      assert s[0] in t && t[0] in s;
      var i: nat :| i < |s| && s[i] == t[0];
      var j: nat :| j < |t| && t[j] == s[0];
      assert i == 0 && s[0] == t[0];
      forall item: nat
        ensures item in s[1..] <==> item in t[1..]
      {
        RestHolds(s, t, item);
      }
      OneOrder(s[1..], t[1..]);
      assert s == [s[0]] + s[1..] && t == [t[0]] + t[1..];
    }
  }

  lemma RestHolds(s: seq<nat>, t: seq<nat>, item: nat)
    requires Ascending(s) && Ascending(t) && s != [] && t != [] && s[0] == t[0]
    requires item in s <==> item in t
    ensures item in s[1..] <==> item in t[1..]
  {
    hide Rank;
    assert item in s <==> item == s[0] || item in s[1..];
    assert item in t <==> item == t[0] || item in t[1..];
    assert s[0] !in s[1..] by {
      assert forall i | 0 <= i < |s[1..]| :: Rank(s[0]) < Rank(s[1..][i]);
    }
    assert t[0] !in t[1..] by {
      assert forall i | 0 <= i < |t[1..]| :: Rank(t[0]) < Rank(t[1..][i]);
    }
  }

  // ---------- Frames ----------

  /** What get_parameters takes an item for. */
  datatype Kind =
    PageFrame(back: bool) | IconFrame | SectionFrame(number: nat) | BarcodeText | BarFileText | Unrecognized

  function KindOf(item: nat): Kind {
    if item == FRONT_PAGE then PageFrame(false)
    else if item == BACK_PAGE then PageFrame(true)
    else if IsIcon(item) then IconFrame
    else if FRONT_PAGE < item <= FRONT_PAGE + NUM_SECTIONS then SectionFrame(item - FRONT_PAGE)
    else if BACK_PAGE < item <= BACK_PAGE + NUM_SECTIONS then SectionFrame(item - BACK_PAGE)
    else if BACK_BARCODE <= item <= BACK_BARCODE + NUM_SECTIONS
            || FRONT_BARCODE <= item <= FRONT_BARCODE + NUM_SECTIONS then
      BarcodeText
    else if item == SEND_BAR_FILE then BarFileText
    else Unrecognized
  }

  /** Every frame is recognized for what it is, and a section frame belongs to a section that is there. */
  lemma FramesRecognized(job: Job, k: nat)
    requires |job.sections| <= NUM_SECTIONS && k < |Frames(job)|
    ensures var kind := KindOf(Frames(job)[k]);
            && (kind.PageFrame? || kind.IconFrame? || kind.SectionFrame? || kind.BarFileText?)
            && (kind.BarFileText? <==> k == |Images(job)|)
            && (kind.SectionFrame? ==> 1 <= kind.number <= |job.sections|)
  {
    SectionReadsSound(job.sections, FRONT_PAGE, Front, BACK_PAGE, Back, |job.sections|);
    ImagesSound(job);
  }

  /** The place of frame k in the read list. */
  ghost function Place(job: Job, k: nat): nat
    requires k < |Frames(job)|
  {
    if k < |Images(job)| then k else |ReadList(job)| - 1
  }

  lemma PlaceOfFrame(job: Job, k: nat)
    requires |job.sections| <= NUM_SECTIONS && k < |Frames(job)|
    ensures Place(job, k) < |ReadList(job)| && ReadList(job)[Place(job, k)] == Frames(job)[k]
  {
    ImagesSound(job);
  }

  // ---------- The state machine ----------

  datatype Window = Window(width: int, length: int) | NoWindow

  datatype FrameFormat = Image(format: Format) | Text

  datatype Parameters = Parameters(format: FrameFormat, pixelsPerLine: int, bytesPerLine: int, lines: int)

  /** What the scanner answers during one start. */
  datatype Device = Device(paper: bool, scan: bool, front: Window, back: Window, icon: Window, file: bool,
                           decode: nat -> bool)

  datatype Status = Good | Inval | IoError

  class Scanner {
    const readlist: array<nat>
    var readcnt: nat
    var readptr: nat
    var scanning: bool
    var icon: Window
    var params: Parameters
    var job: Job
    /** The frame that is being read, what has been decoded so far, and how many pages have been fed. */
    ghost var frame: nat
    ghost var decoded: seq<nat>
    ghost var scans: nat

    ghost predicate Valid()
      reads this, readlist
    {
      && readlist.Length == NUM_READS && readcnt <= NUM_READS && |job.sections| <= NUM_SECTIONS
      && (scanning ==>
            && readlist[..readcnt] == ReadList(job)
            && frame < |Frames(job)| && readptr == Place(job, frame) < readcnt)
    }

    constructor ()
      ensures Valid() && !scanning && decoded == [] && scans == 0 && fresh(readlist)
    {
      readlist := new nat[NUM_READS];
      readcnt, readptr, scanning, icon, params := 0, 0, false, NoWindow, Parameters(Image(GrayFrame), 0, 0, 0);
      job := Job(0, GrayFrame, false, false, false, false, false, false, []);
      frame, decoded, scans := 0, [], 0;
    }

    method Append(item: nat)
      requires readlist.Length == NUM_READS && readcnt < NUM_READS
      modifies this`readcnt, readlist
      ensures readcnt == old(readcnt) + 1
      ensures readlist[..readcnt] == old(readlist[..readcnt]) + [item]
    {
      readlist[readcnt] := item;
      readcnt := readcnt + 1;
    }

    method AppendIf(wanted: bool, item: nat)
      requires readlist.Length == NUM_READS && readcnt < NUM_READS
      modifies this`readcnt, readlist
      ensures old(readcnt) <= readcnt <= old(readcnt) + 1
      ensures readlist[..readcnt] == old(readlist[..readcnt]) + if wanted then [item] else []
    {
      if wanted {
        Append(item);
      }
    }

    /** The front read, and the back one when duplex. */
    method AppendPages(j: Job, front: nat, back: nat)
      requires readlist.Length == NUM_READS && readcnt + 2 <= NUM_READS
      modifies this`readcnt, readlist
      ensures old(readcnt) < readcnt <= old(readcnt) + 2
      ensures readlist[..readcnt] == old(readlist[..readcnt]) + PageReads(j, front, back)
    {
      Append(front);
      if j.duplex {
        Append(back);
      }
    }

    /** A loop of start_setup over the sections. */
    method AppendSections(sections: seq<Section>, front: nat, frontCode: Code, back: nat, backCode: Code)
      requires readlist.Length == NUM_READS && readcnt + 2 * |sections| <= NUM_READS
      modifies this`readcnt, readlist
      ensures old(readcnt) <= readcnt <= old(readcnt) + 2 * |sections|
      ensures readlist[..readcnt] ==
              old(readlist[..readcnt]) + SectionReads(sections, front, frontCode, back, backCode, |sections|)
    {
      for i := 0 to |sections|
        invariant old(readcnt) <= readcnt <= old(readcnt) + 2 * i
        invariant readlist[..readcnt] ==
                  old(readlist[..readcnt]) + SectionReads(sections, front, frontCode, back, backCode, i)
      {
        AppendIf(frontCode in sections[i].flags, front + i + 1);
        AppendIf(backCode in sections[i].flags, back + i + 1);
      }
    }

    method AppendDecodes(j: Job, front: nat, frontCode: Code, back: nat, backCode: Code)
      requires readlist.Length == NUM_READS && |j.sections| <= NUM_SECTIONS && readcnt + 16 <= NUM_READS
      modifies this`readcnt, readlist
      ensures old(readcnt) <= readcnt <= old(readcnt) + 16
      ensures readlist[..readcnt] == old(readlist[..readcnt]) + DecodeReads(j, front, frontCode, back, backCode)
    {
      if |j.sections| == 0 {
        AppendPages(j, front, back);
      } else {
        AppendSections(j.sections, front, frontCode, back, backCode);
      }
    }

    method AppendImages(j: Job)
      requires readlist.Length == NUM_READS && |j.sections| <= NUM_SECTIONS && readcnt == 0
      modifies this`readcnt, readlist
      ensures 0 < readcnt <= 20 && readlist[..readcnt] == Images(j)
    {
      hide PageReads, SectionReads;
      AppendPages(j, FRONT_PAGE, BACK_PAGE);
      AppendSections(j.sections, FRONT_PAGE, Front, BACK_PAGE, Back);
      if j.icons {
        AppendPages(j, FRONT_ICON, BACK_ICON);
      }
    }

    method AppendBarsAndPatches(j: Job)
      requires readlist.Length == NUM_READS && |j.sections| <= NUM_SECTIONS && readcnt <= 20
      modifies this`readcnt, readlist
      ensures old(readcnt) <= readcnt <= old(readcnt) + 32
      ensures readlist[..readcnt] == old(readlist[..readcnt]) + Decodes(j)
    {
      hide DecodeReads;
      if j.barcodes {
        AppendDecodes(j, FRONT_BARCODE, FrontBar, BACK_BARCODE, BackBar);
      }
      if j.patchcodes {
        AppendDecodes(j, FRONT_PATCHCODE, FrontPatch, BACK_PATCHCODE, BackPatch);
      }
    }

    /** start_setup: a new read list. There is always room in it. */
    method StartSetup(j: Job)
      requires Valid() && !scanning && |j.sections| <= NUM_SECTIONS
      modifies this`readcnt, this`readptr, this`job, readlist
      ensures Valid() && job == j && readptr == 0
      ensures 0 < readcnt && readlist[..readcnt] == ReadList(j)
      ensures exists images: nat :: images <= readcnt && Lists(j, readlist[..readcnt], images)
    {
      ReadListHolds(j);
      hide Images, Decodes, Lists;
      job := j;
      readptr, readcnt := 0, 0;
      AppendImages(j);
      var imagecnt := readcnt;
      AppendBarsAndPatches(j);
      assert |readlist[..readcnt]| == |Images(j)| + |Decodes(j)|;
      if readcnt > imagecnt {
        Append(SEND_BAR_FILE);
      }
    }

    /** get_parameters while scanning. The item is a frame, so it is one that is recognized. The width
        is cut to whole bytes. */
    method GetParameters(d: Device) returns (status: Status)
      requires Valid() && scanning
      modifies this`params
      ensures status == Good <==> HasSize(job, Frames(job)[frame], d, icon)
      ensures status == Good ==> Described(job, frame, d, icon, params)
    {
      PlaceOfFrame(job, frame);
      FramesRecognized(job, frame);
      var item := readlist[readptr];
      assert item == ReadList(job)[readptr];
      var format, size := Image(job.format), NoWindow;
      match KindOf(item) {
        case PageFrame(back) =>
          size := if back then d.back else d.front;
        case IconFrame =>
          format := Image(GrayFrame);
          size := icon;
        case SectionFrame(number) =>
          var section := job.sections[number - 1];
          format := Image(section.format);
          size := Window(Pixels(section.width, job.res), Pixels(section.length, job.res));
        case BarcodeText | BarFileText =>
          format := Text;
          size := Window(8, -1);
        case Unrecognized =>
          format := Image(GrayFrame);
          size := Window(8, -1);
      }
      if size.NoWindow? {
        return IoError;
      }
      if job.res == 0 || size.width <= 0 {
        return Inval;
      }
      if format != Image(GrayFrame) && (job.preview || job.disableOptionalFrames) {
        format := Image(GrayFrame);
      }
      var bytes := (size.width + 7) / 8;
      params := Parameters(format, 8 * bytes, bytes, size.length);
      return Good;
    }

    /** The inner loop of start_scan: all bar and patch codes are read, up to the item that delivers them. */
    method ReadDecodes(d: Device) returns (ok: bool)
      requires readlist.Length == NUM_READS && readcnt <= NUM_READS && |job.sections| <= NUM_SECTIONS
      requires readlist[..readcnt] == ReadList(job) && readptr == |Images(job)| < readcnt
      modifies this`readptr, this`decoded
      ensures ok ==> readptr == readcnt - 1 && decoded == old(decoded) + Decodes(job)
      ensures ok <==> Decodable(job, d)
    {
      ghost var images := |Images(job)|;
      hide Images, Decodes, ReadList;
      ok := true;
      DecodeAt(job, images);
      while ok && readptr < readcnt && readlist[readptr] != SEND_BAR_FILE
        invariant images <= readptr < readcnt && readcnt == images + |Decodes(job)| + 1
        invariant ok ==> decoded == old(decoded) + Decodes(job)[..readptr - images]
        invariant forall i | 0 <= i < readptr - images :: d.decode(Decodes(job)[i])
        invariant !ok ==> readptr - images < |Decodes(job)| && !d.decode(Decodes(job)[readptr - images])
        decreases ok, readcnt - readptr
      {
        var item := readlist[readptr];
        assert item == ReadList(job)[readptr];
        DecodeAt(job, readptr);
        ok := d.decode(item);
        if ok {
          decoded := decoded + [item];
          readptr := readptr + 1;
        }
      }
      if ok {
        assert readlist[readptr] == ReadList(job)[readptr];
        DecodeAt(job, readptr);
        assert Decodes(job)[..readptr - images] == Decodes(job);
      }
    }

    /** The loop body of start_scan: what has to be read before the next frame, `item`, can be. */
    method Advance(d: Device, ghost item: nat) returns (status: Status)
      requires readlist.Length == NUM_READS && readcnt <= NUM_READS && |job.sections| <= NUM_SECTIONS
      requires readlist[..readcnt] == ReadList(job) && readptr + 1 < readcnt
      requires if HasImageData(readlist[readptr + 1]) then readlist[readptr + 1] == item
               else readptr + 1 == |Images(job)| && !IsIcon(item)
      modifies this`readptr, this`icon, this`decoded
      ensures var text := !HasImageData(readlist[old(readptr) + 1]);
              && (status == Good <==> (text ==> Delivers(job, d)) && (IsIcon(item) ==> d.icon.Window?))
              && (status == Good ==> readptr == if text then readcnt - 1 else old(readptr) + 1)
              && (status == Good ==> decoded == old(decoded) + if text then Decodes(job) else [])
      ensures status == Good && IsIcon(item) ==> icon == d.icon
    {
      hide Images, Decodes, ReadList, HasImageData, IsIcon, Decodable;
      readptr := readptr + 1;
      status := Good;
      var itemtype := readlist[readptr];
      if !HasImageData(itemtype) {
        var ok := ReadDecodes(d);
        if !ok || !d.file {
          status := IoError;
        }
      } else if IsIcon(itemtype) {
        icon := d.icon;
        if icon.NoWindow? {
          status := IoError;
        }
      }
    }

    /** On to the place of the next frame. */
    method Move(d: Device) returns (status: Status)
      requires Valid() && scanning && frame + 1 < |Frames(job)|
      modifies this`readptr, this`icon, this`frame, this`decoded
      ensures status == Good ==>
                && Valid() && frame == old(frame) + 1
                && decoded == old(decoded) + if frame == |Images(job)| then Decodes(job) else []
      ensures var (item, text) := (Frames(job)[old(frame) + 1], old(frame) + 1 == |Images(job)|);
              && (status == Good <==> (text ==> Delivers(job, d)) && (IsIcon(item) ==> d.icon.Window?))
              && (status == Good && IsIcon(item) ==> icon == d.icon)
    {
      ghost var item := Frames(job)[frame + 1];
      NextPlace(job, frame);
      hide Images, Decodes, ReadList, Frames, Place, HasImageData, IsIcon, Delivers;
      assert readlist[readptr + 1] == readlist[..readcnt][readptr + 1];
      status := Advance(d, item);
      if status == Good {
        frame := frame + 1;
      }
    }

    /** start_scan between the frames of a page: on to the next frame. All decoding happens on the way to
        the last one. */
    method NextFrame(d: Device) returns (status: Status)
      requires Valid() && scanning && frame + 1 < |Frames(job)|
      modifies this`readptr, this`scanning, this`icon, this`params, this`frame, this`decoded
      ensures Valid()
      ensures status == Good ==>
                && scanning && frame == old(frame) + 1
                && decoded == old(decoded) + if frame == |Images(job)| then Decodes(job) else []
      ensures status != Good ==> !scanning
      ensures status == Good <==> Answers(job, old(frame) + 1, d)
    {
      assert readlist.Length == NUM_READS && readcnt <= NUM_READS && |job.sections| <= NUM_SECTIONS;
      hide *;
      status := ReadFrame(d);
      if status != Good {
        Stop();
      }
    }

    /** The place of the next frame, and its parameters. */
    method ReadFrame(d: Device) returns (status: Status)
      requires Valid() && scanning && frame + 1 < |Frames(job)|
      modifies this`readptr, this`icon, this`params, this`frame, this`decoded
      ensures status == Good ==>
                && Valid() && frame == old(frame) + 1
                && decoded == old(decoded) + if frame == |Images(job)| then Decodes(job) else []
      ensures status == Good <==> Answers(job, old(frame) + 1, d)
    {
      AnswersNext(job, frame + 1, d, icon);
      hide *;
      status := Move(d);
      if status == Good {
        status := GetParameters(d);
      }
    }

    /** The scan is over. */
    method Stop()
      requires readlist.Length == NUM_READS && readcnt <= NUM_READS && |job.sections| <= NUM_SECTIONS
      modifies this`scanning
      ensures Valid() && !scanning
    {
      scanning := false;
    }

    /** start_scan for a new page. When the feeder is empty or the scanner refuses, the scan goes on as far
        as the driver is concerned, at the first frame. */
    method NewPage(d: Device) returns (status: Status)
      requires Valid() && 0 < readcnt && readlist[..readcnt] == ReadList(job)
      modifies this`readptr, this`scanning, this`params, this`frame, this`scans
      ensures Valid()
      ensures status == Good ==> scanning && frame == 0 && scans == old(scans) + 1
      ensures !(d.paper && d.scan) ==>
                status == IoError && scanning == old(scanning) && scans == old(scans) && (scanning ==> frame == 0)
      ensures d.paper && d.scan && status != Good ==> !scanning
      ensures status == Good <==> Answers(job, 0, d)
    {
      FirstPlace(job);
      SizeOfIcon(job, FRONT_PAGE, d, icon);
      hide Images, Decodes, ReadList, Frames, Place, HasSize, Delivers;
      readptr, frame := 0, 0;
      if !d.paper || !d.scan {
        return IoError;
      }
      scans := scans + 1;
      scanning := true;
      status := GetParameters(d);
      if status != Good {
        scanning := false;
      }
    }

    /** start_scan. A start delivers the frame that follows, just when the scanner answers what this asks for. */
    method StartScan(d: Device) returns (status: Status)
      requires Valid() && 0 < readcnt && readlist[..readcnt] == ReadList(job)
      modifies this`readptr, this`scanning, this`icon, this`params, this`frame, this`decoded, this`scans
      ensures Valid()
      ensures status == Good <==> Answers(job, Following(job, old(scanning), old(frame)), d)
      ensures status == Good ==> scanning && frame == Following(job, old(scanning), old(frame))
      ensures status == Good && frame > 0 ==>
                && scans == old(scans)
                && decoded == old(decoded) + if frame == |Images(job)| then Decodes(job) else []
      ensures status == Good && frame == 0 ==> scans == old(scans) + 1 && decoded == old(decoded)
      ensures Following(job, old(scanning), old(frame)) == 0 && !(d.paper && d.scan) ==>
                scanning == old(scanning) && scans == old(scans) && (scanning ==> frame == 0)
    {
      FirstPlace(job);
      LastPlace(job, frame);
      assert readcnt == |ReadList(job)|;
      hide Images, Decodes, ReadList, Frames, Place, Answers;
      if readcnt > 1 && scanning && readptr + 1 < readcnt {
        status := NextFrame(d);
      } else {
        status := NewPage(d);
      }
    }

    /** sane_start: the first start of a batch sets it up, unless the options do not allow it (`ready`). */
    method SaneStart(j: Job, ready: bool, d: Device) returns (status: Status)
      requires Valid() && |j.sections| <= NUM_SECTIONS && (scanning ==> j == job)
      modifies this, readlist
      ensures Valid() && (old(scanning) || ready ==> job == j)
      ensures status == Good <==> (old(scanning) || ready) && Answers(j, Following(j, old(scanning), old(frame)), d)
      ensures status == Good ==> scanning && frame == Following(j, old(scanning), old(frame))
      ensures status == Good && frame > 0 ==>
                && scans == old(scans)
                && decoded == old(decoded) + if frame == |Images(j)| then Decodes(j) else []
      ensures status == Good && frame == 0 ==> scans == old(scans) + 1 && decoded == old(decoded)
      ensures !old(scanning) && !ready ==> !scanning && scans == old(scans) && decoded == old(decoded)
      ensures Following(j, old(scanning), old(frame)) == 0 && !(d.paper && d.scan) ==>
                scanning == old(scanning) && scans == old(scans) && (scanning ==> frame == 0)
    {
      if !scanning {
        if !ready {
          return Inval;
        }
        StartSetup(j);
      }
      FirstPlace(j);
      hide Images, Decodes, ReadList, Frames, Place, Answers;
      status := StartScan(d);
    }

    /** A start that succeeds, and the item it delivers. */
    method StartItem(j: Job, d: Device) returns (item: nat)
      requires Valid() && |j.sections| <= NUM_SECTIONS && (scanning ==> j == job)
      requires Answers(j, Following(j, scanning, frame), d)
      modifies this, readlist
      ensures Valid() && job == j && scanning && frame == Following(j, old(scanning), old(frame)) < |Frames(j)|
      ensures item == Frames(j)[frame]
      ensures scans == old(scans) + if frame == 0 then 1 else 0
      ensures decoded == old(decoded) + if frame > 0 && frame == |Images(j)| then Decodes(j) else []
    {
      hide Images, Decodes, ReadList, Frames, Place, Answers, Following;
      var _ := SaneStart(j, true, d);
      PlaceOfFrame(j, frame);
      assert readlist[readptr] == readlist[..readcnt][readptr];
      item := readlist[readptr];
    }
  }

  /** The frame that follows: the next one of the page, or the first of a new page. */
  ghost function Following(job: Job, scanning: bool, frame: nat): (k: nat)
    ensures k < |Frames(job)|
  {
    if scanning && frame + 1 < |Frames(job)| then frame + 1 else 0
  }

  /** The frame has a size that is not empty. */
  ghost predicate HasSize(job: Job, item: nat, d: Device, icon: Window) {
    var size := Size(job, item, d, icon);
    job.res > 0 && size.Window? && size.width > 0
  }

  lemma SizeOfIcon(job: Job, item: nat, d: Device, icon: Window)
    ensures !IsIcon(item) ==> HasSize(job, item, d, icon) == HasSize(job, item, d, d.icon)
    ensures IsIcon(item) && d.icon.NoWindow? ==> !HasSize(job, item, d, d.icon)
  {
  }

  /** Everything is decoded, and can be delivered. */
  ghost predicate Delivers(job: Job, d: Device) {
    d.file && Decodable(job, d)
  }

  ghost predicate Decodable(job: Job, d: Device) {
    forall i | 0 <= i < |Decodes(job)| :: d.decode(Decodes(job)[i])
  }

  /** The scanner answers what the start of frame k asks for, and no more: paper and scan for the first frame,
      all decoding for the one that delivers it, and a size. */
  ghost predicate Answers(job: Job, k: nat, d: Device)
    requires k < |Frames(job)|
  {
    && (k == 0 ==> d.paper && d.scan) && (k == |Images(job)| ==> Delivers(job, d))
    && HasSize(job, Frames(job)[k], d, d.icon)
  }

  lemma AnswersNext(job: Job, k: nat, d: Device, icon: Window)
    requires 0 < k < |Frames(job)|
    ensures var item := Frames(job)[k];
            && (Answers(job, k, d) <==> (k == |Images(job)| ==> Delivers(job, d)) && HasSize(job, item, d, d.icon))
            && (!IsIcon(item) ==> HasSize(job, item, d, icon) == HasSize(job, item, d, d.icon))
            && (IsIcon(item) && d.icon.NoWindow? ==> !HasSize(job, item, d, d.icon))
  {
    SizeOfIcon(job, Frames(job)[k], d, icon);
    hide HasSize, IsIcon, Delivers, Frames, Images;
  }

  /** What the read list holds after the images. */
  lemma DecodeAt(job: Job, at: nat)
    requires |job.sections| <= NUM_SECTIONS && |Images(job)| <= at < |ReadList(job)|
    ensures var n := |Decodes(job)|;
            && |ReadList(job)| == |Images(job)| + n + 1
            && (ReadList(job)[at] == SEND_BAR_FILE <==> at == |Images(job)| + n)
            && (at < |Images(job)| + n ==> ReadList(job)[at] == Decodes(job)[at - |Images(job)|])
  {
    ReadListSound(job);
    hide Images, Decodes;
  }

  lemma NextPlace(job: Job, k: nat)
    requires |job.sections| <= NUM_SECTIONS && k + 1 < |Frames(job)|
    ensures var list, at := ReadList(job), Place(job, k) + 1;
            && at < |list| && Place(job, k + 1) < |list|
            && (HasImageData(list[at]) <==> k + 1 != |Images(job)|)
            && (HasImageData(list[at]) ==> Place(job, k + 1) == at && Frames(job)[k + 1] == list[at])
            && (!HasImageData(list[at]) ==>
                  at == |Images(job)| && Place(job, k + 1) == |list| - 1 && !IsIcon(Frames(job)[k + 1]))
  {
    ReadListSound(job);
    PlaceOfFrame(job, k);
    PlaceOfFrame(job, k + 1);
  }

  lemma FirstPlace(job: Job)
    requires |job.sections| <= NUM_SECTIONS
    ensures Place(job, 0) == 0 < |ReadList(job)| && Frames(job)[0] == FRONT_PAGE && |Images(job)| > 0
    ensures !IsIcon(FRONT_PAGE)
  {
    ImagesSound(job);
  }

  lemma LastPlace(job: Job, k: nat)
    requires |job.sections| <= NUM_SECTIONS
    ensures k < |Frames(job)| ==>
              (Place(job, k) + 1 < |ReadList(job)| && |ReadList(job)| > 1 <==> k + 1 < |Frames(job)|)
  {
    ImagesSound(job);
  }

  /** All frames are said to be grey, whatever they are, in a preview or when the configuration says so. */
  predicate Plain(job: Job) {
    job.preview || job.disableOptionalFrames
  }

  /** The parameters the frontend gets for frame k. */
  ghost predicate Described(job: Job, k: nat, d: Device, icon: Window, params: Parameters)
    requires k < |Frames(job)|
  {
    var size := Size(job, Frames(job)[k], d, icon);
    && size.Window? && params.lines == size.length && params.bytesPerLine == (size.width + 7) / 8
    && params.pixelsPerLine == 8 * params.bytesPerLine
    && params.format == (if Plain(job) then Image(GrayFrame) else FormatOf(job, Frames(job)[k]))
    && (params.format == Text <==> k == |Images(job)| && !Plain(job))
  }

  /** The format of a frame: the section's or the page's compression; an icon is never compressed. */
  ghost function FormatOf(job: Job, item: nat): FrameFormat {
    match KindOf(item)
    case PageFrame(_) => Image(job.format)
    case IconFrame => Image(GrayFrame)
    case SectionFrame(number) =>
      if 1 <= number <= |job.sections| then Image(job.sections[number - 1].format) else Text
    case _ => Text
  }

  /** The width and length of a frame: the scanner's for pages and icons, the section's for a section. */
  ghost function Size(job: Job, item: nat, d: Device, icon: Window): Window
  {
    match KindOf(item)
    case PageFrame(back) => if back then d.back else d.front
    case IconFrame => icon
    case SectionFrame(number) =>
      if 1 <= number <= |job.sections| then
        Window(Pixels(job.sections[number - 1].width, job.res), Pixels(job.sections[number - 1].length, job.res))
      else NoWindow
    case _ => Window(8, -1)
  }

  /** Which size and which format belong to which item, by the bytes of the codes. */
  lemma FrameLaws(job: Job, d: Device, icon: Window, i: nat)
    ensures Size(job, 0x80, d, icon) == d.front && Size(job, 0x90, d, icon) == d.back
    ensures Size(job, 0x89, d, icon) == Size(job, 0x99, d, icon) == icon && Size(job, 0xBB, d, icon) == Window(8, -1)
    ensures FormatOf(job, 0x80) == FormatOf(job, 0x90) == Image(job.format) && FormatOf(job, 0xBB) == Text
    ensures FormatOf(job, 0x89) == FormatOf(job, 0x99) == Image(GrayFrame)
    ensures 1 <= i <= |job.sections| && i <= 8 ==>
              var s := job.sections[i - 1];
              && Size(job, 0x80 + i, d, icon) == Size(job, 0x90 + i, d, icon)
              && Size(job, 0x80 + i, d, icon) == Window(s.width * job.res / 1000, s.length * job.res / 1000)
              && FormatOf(job, 0x80 + i) == FormatOf(job, 0x90 + i) == Image(s.format)
  {
  }

  ghost function Repeat(s: seq<nat>, n: nat): seq<nat> {
    if n == 0 then [] else Repeat(s, n - 1) + s
  }

  /** Where a batch is after i starts, for pages of n frames. */
  ghost predicate Reached(n: nat, decodes: seq<nat>, i: nat, frame: nat, scans: nat, decoded: seq<nat>) {
    if i == 0 then scans == 0 && decoded == []
    else
      && scans > 0 && frame < n && i == Span(scans - 1, n) + frame + 1
      && decoded == if decodes == [] then [] else Repeat(decodes, if frame == n - 1 then scans else scans - 1)
  }

  lemma ReachedNext(n: nat, decodes: seq<nat>, i: nat, frame: nat, scans: nat, decoded: seq<nat>,
                    next: nat, nextScans: nat, nextDecoded: seq<nat>)
    requires Reached(n, decodes, i, frame, scans, decoded) && n > if decodes == [] then 0 else 1
    requires next == InTurn(n, i, frame)
    requires nextScans == scans + if next == 0 then 1 else 0
    requires nextDecoded == decoded + if decodes != [] && next == n - 1 then decodes else []
    ensures Reached(n, decodes, i + 1, next, nextScans, nextDecoded)
  {
    assert Repeat(decodes, nextScans) == Repeat(decodes, nextScans - 1) + decodes;
  }

  /** The frame of the next start, after i of them. */
  ghost function InTurn(n: nat, i: nat, frame: nat): nat {
    if i > 0 && frame + 1 < n then frame + 1 else 0
  }

  lemma InTurnIs(n: nat, decodes: seq<nat>, i: nat, frame: nat, scans: nat, decoded: seq<nat>)
    requires Reached(n, decodes, i, frame, scans, decoded) && n > 0
    ensures InTurn(n, i, frame) == i % n
  {
    if i > 0 {
      SpanIsProduct(scans - 1, n);
      SpanIsProduct(scans, n);
      if frame + 1 < n {
        Remainder(i, n, scans - 1, frame + 1);
      } else {
        Remainder(i, n, scans, 0);
      }
    }
  }

  lemma ReachedEnd(n: nat, decodes: seq<nat>, i: nat, frame: nat, scans: nat, decoded: seq<nat>)
    requires Reached(n, decodes, i, frame, scans, decoded) && n > 0
    ensures scans == (i + n - 1) / n
    ensures decoded == if decodes == [] then [] else Repeat(decodes, i / n)
  {
    if i > 0 {
      SpanIsProduct(scans - 1, n);
      SpanIsProduct(scans, n);
      Remainder(i + n - 1, n, scans, frame);
      if frame == n - 1 {
        Remainder(i, n, scans, 0);
      } else {
        Remainder(i, n, scans - 1, frame + 1);
      }
    }
  }

  ghost predicate TakeTurns(frames: seq<nat>, page: seq<nat>)
    requires |page| > 0
  {
    forall k: nat | k < |frames| :: frames[k] == page[k % |page|]
  }

  lemma NoTurns(n: nat, decodes: seq<nat>, frame: nat, page: seq<nat>)
    requires |page| > 0
    ensures Reached(n, decodes, 0, frame, 0, []) && TakeTurns([], page)
  {
  }

  lemma NextTurn(frames: seq<nat>, page: seq<nat>, item: nat)
    requires |page| > 0 && TakeTurns(frames, page) && item == page[|frames| % |page|]
    ensures TakeTurns(frames + [item], page)
  {
  }

  /** What comes out of starts for pages of these frames: they take turns, and a page is fed for each round
      begun and its codes are decoded in each round ended. */
  ghost predicate Batch(page: seq<nat>, decodes: seq<nat>, frames: seq<nat>, scans: nat, decoded: seq<nat>)
    requires |page| > 0
  {
    && TakeTurns(frames, page)
    && scans == (|frames| + |page| - 1) / |page|
    && |decoded| == |frames| / |page| * |decodes| && (decodes != [] ==> TakeTurns(decoded, decodes))
  }

  /** The frames of a page and what is decoded for it: each image that is wanted, in order, and then one frame
      for everything that is decoded, if anything is. */
  ghost predicate IsPage(job: Job, page: seq<nat>, decodes: seq<nat>) {
    && (forall item: nat :: item in decodes <==> WantsDecode(job, item)) && Ascending(decodes)
    && |page| > 0 && (decodes != [] ==> page[|page| - 1] == 0xBB)
    && var images := if decodes == [] then page else page[..|page| - 1];
       (forall item: nat :: item in images <==> WantsImage(job, item)) && Ascending(images)
  }

  lemma FramesArePage(job: Job)
    requires |job.sections| <= NUM_SECTIONS
    ensures IsPage(job, Frames(job), Decodes(job))
  {
    forall item: nat
      ensures item in Images(job) <==> WantsImage(job, item)
      ensures item in Decodes(job) <==> WantsDecode(job, item)
    {
      ImagesHold(job, item);
      DecodesHold(job, item);
    }
    ImagesRanked(job);
    DecodesRanked(job);
    hide Images, Decodes, WantsImage, WantsDecode, Rank;
    var images := Images(job);
    assert (images + [SEND_BAR_FILE])[..|images|] == images;
  }

  lemma {:induction false} RepeatTurns(s: seq<nat>, n: nat)
    requires s != []
    ensures |Repeat(s, n)| == n * |s| && TakeTurns(Repeat(s, n), s)
  {
    if n > 0 {
      RepeatTurns(s, n - 1);
      var before := Repeat(s, n - 1);
      assert n * |s| == (n - 1) * |s| + |s|;
      forall k: nat | k < |Repeat(s, n)|
        ensures Repeat(s, n)[k] == s[k % |s|]
      {
        if k >= |before| {
          Remainder(k, |s|, n - 1, k - |before|);
        }
      }
    }
  }

  /** A batch after |frames| starts. */
  ghost predicate Turned(s: Scanner, job: Job, frames: seq<nat>)
    reads s, s.readlist
  {
    && |Frames(job)| > 0 && s.Valid() && (if frames == [] then !s.scanning else s.scanning && s.job == job)
    && Reached(|Frames(job)|, Decodes(job), |frames|, s.frame, s.scans, s.decoded) && TakeTurns(frames, Frames(job))
  }

  /** One more start. */
  method Turn(s: Scanner, job: Job, ghost devices: seq<Device>, d: Device, ghost frames: seq<nat>) returns (item: nat)
    requires Turned(s, job, frames) && |job.sections| <= NUM_SECTIONS && AnswersInTurn(job, devices)
    requires |frames| < |devices| && d == devices[|frames|]
    modifies s, s.readlist
    ensures Turned(s, job, frames + [item])
  {
    FramesOf(job);
    ghost var n, decodes, i := |Frames(job)|, Decodes(job), |frames|;
    ghost var frame, scans, decoded := s.frame, s.scans, s.decoded;
    InTurnIs(n, decodes, i, frame, scans, decoded);
    TurnAnswered(job, devices, i, s.scanning, frame);
    hide Reached, InTurn, Frames, Images, Decodes, TakeTurns, Answers, AnswersInTurn, Following, Scanner.Valid;
    item := s.StartItem(job, d);
    ReachedNext(n, decodes, i, frame, scans, decoded, s.frame, s.scans, s.decoded);
    NextTurn(frames, Frames(job), item);
  }

  /** A batch whose pages all scan. Start number k delivers frame k modulo the frames of a page: every image
      once and in order, then everything decoded as one frame, and then the front of the next page. Each
      page is fed once, and its codes are decoded once. */
  method RunBatch(job: Job, devices: seq<Device>)
    returns (frames: seq<nat>, ghost scans: nat, ghost decoded: seq<nat>, ghost page: seq<nat>,
             ghost decodes: seq<nat>)
    requires |job.sections| <= NUM_SECTIONS && AnswersInTurn(job, devices)
    ensures page == Frames(job) && decodes == Decodes(job) && IsPage(job, page, decodes)
    ensures |frames| == |devices| && Batch(page, decodes, frames, scans, decoded)
  {
    FramesOf(job);
    FramesArePage(job);
    page, decodes := Frames(job), Decodes(job);
    var s := new Scanner();
    frames := [];
    NoTurns(|Frames(job)|, Decodes(job), s.frame, Frames(job));
    assert Turned(s, job, frames);
    hide IsPage, Turned, Batch, Frames, Decodes;
    for i := 0 to |devices|
      invariant fresh(s) && fresh(s.readlist) && |frames| == i && Turned(s, job, frames)
    {
      var item := Turn(s, job, devices, devices[i], frames);
      frames := frames + [item];
    }
    scans, decoded := s.scans, s.decoded;
    BatchEnds(s, job, frames);
  }

  lemma BatchEnds(s: Scanner, job: Job, frames: seq<nat>)
    requires Turned(s, job, frames)
    ensures |Frames(job)| > 0 && Batch(Frames(job), Decodes(job), frames, s.scans, s.decoded)
  {
    hide Frames, Decodes, Reached, Scanner.Valid, Batch;
    BatchIs(Frames(job), Decodes(job), frames, s.frame, s.scans, s.decoded);
  }

  lemma BatchIs(page: seq<nat>, decodes: seq<nat>, frames: seq<nat>, frame: nat, scans: nat, decoded: seq<nat>)
    requires |page| > 0 && Reached(|page|, decodes, |frames|, frame, scans, decoded) && TakeTurns(frames, page)
    ensures Batch(page, decodes, frames, scans, decoded)
  {
    ReachedEnd(|page|, decodes, |frames|, frame, scans, decoded);
    hide Reached, Repeat, TakeTurns;
    if decodes != [] {
      RepeatTurns(decodes, |frames| / |page|);
    } else {
      assert |frames| / |page| * |decodes| == 0;
    }
  }

  /** The scanner answers what each start of a batch asks for. */
  ghost predicate AnswersInTurn(job: Job, devices: seq<Device>) {
    var n := |Frames(job)|;
    forall i: nat | i < |devices| :: Answers(job, i % n, devices[i])
  }

  lemma TurnAnswered(job: Job, devices: seq<Device>, i: nat, scanning: bool, frame: nat)
    requires AnswersInTurn(job, devices) && i < |devices| && (scanning <==> i > 0)
    requires InTurn(|Frames(job)|, i, frame) == i % |Frames(job)|
    ensures Following(job, scanning, frame) == InTurn(|Frames(job)|, i, frame) == i % |Frames(job)|
    ensures Answers(job, Following(job, scanning, frame), devices[i])
  {
    hide Frames, Answers;
  }

  lemma FramesOf(job: Job)
    requires |job.sections| <= NUM_SECTIONS
    ensures |Frames(job)| == |Images(job)| + (if Decodes(job) == [] then 0 else 1) && |Images(job)| > 0
  {
    ImagesSound(job);
  }

  /** What happens when the feeder is empty after a page, or the scanner refuses, and the frontend starts again all
      the same, without cancelling. The driver believes it is still scanning and goes on to the second frame of a
      page that was never fed - exactly when a page has more than one frame. */
  method EmptyFeeder(s: Scanner, empty: Device, good: Device) returns (item: nat)
    requires s.Valid() && s.scanning && s.frame + 1 == |Frames(s.job)| && !(empty.paper && empty.scan)
    requires Answers(s.job, if |Frames(s.job)| > 1 then 1 else 0, good)
    modifies s, s.readlist
    ensures s.Valid() && s.scanning && s.job == old(s.job)
    ensures item == Frames(s.job)[if |Frames(s.job)| > 1 then 1 else 0]
    ensures s.scans == old(s.scans) + 1 <==> |Frames(s.job)| == 1
  {
    assert |s.job.sections| <= NUM_SECTIONS;
    hide Images, Decodes, ReadList, Frames, Place, Answers, Scanner.Valid;
    var j := s.job;
    var _ := s.SaneStart(j, true, empty);
    item := s.StartItem(j, good);
  }
}
