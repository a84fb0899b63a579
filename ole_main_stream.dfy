/** Data model of the main text stream of a Word 97-2003 binary document:
    text pieces, character and paragraph formatting runs, sections, the
    font-style bit set and the four-state operand of the character toggle
    properties (section 2.6.1 of the Microsoft Word Binary File Format,
    [MS-DOC]; the header itself is the File Information Block of section
    2.5.1). Only the declarations of the stream are modelled; the byte-level
    readers that fill the lists are not. */
module DocStream {
  import opened Wrappers

  newtype u8 = x: int | 0 <= x < 0x100
  newtype u32 = x: int | 0 <= x < 0x1_0000_0000
  newtype i32 = x: int | -0x8000_0000 <= x < 0x8000_0000

  /** A run of text in the text stream: its byte offset, its length in
      characters and whether it is stored one byte per character (ANSI). */
  datatype Piece = Piece(offset: i32, length: i32, isANSI: bool)

  /** One bit of the character font-style set. */
  datatype Font =
    | Bold | Italic | Underline | Capitals | SmallCapitals
    | Strike | Hidden | MarkDel | Superscript | Subscript
  {
    /** The enumerator's value: the bit this style occupies in
        CharInfo.fontStyle. */
    function Mask(): bv32
    {
      match this
      case Bold => 0x0001
      case Italic => 0x0002
      case Underline => 0x0004
      case Capitals => 0x0008
      case SmallCapitals => 0x0010
      case Strike => 0x0020
      case Hidden => 0x0040
      case MarkDel => 0x0080
      case Superscript => 0x0100
      case Subscript => 0x0200
    }
  }

  /** The empty font-style set. */
  const REGULAR: bv32 := 0x0000

  /** Formatting of a character run starting at character `offset`. */
  datatype CharInfo = CharInfo(offset: u32, fontStyle: bv32, fontSize: u32)

  /** The paragraph alignments a StyleInfo may carry. */
  datatype Alignment = Left | Center | Right | Justify
  {
    function Code(): u32
    {
      match this
      case Left => 0x00
      case Center => 0x01
      case Right => 0x02
      case Justify => 0x03
    }
  }

  /** The alignment a stored code stands for; None for every code outside
      the four declared values. */
  function AlignmentOf(code: u32): Option<Alignment>
  {
    if code == 0x00 then Some(Left)
    else if code == 0x01 then Some(Center)
    else if code == 0x02 then Some(Right)
    else if code == 0x03 then Some(Justify)
    else None
  }

  /** Paragraph style in force from character `offset` up to the offset of
      the next entry of its list. Horizontal indents are signed, vertical
      spacing, alignment and font size unsigned. */
  datatype StyleInfo = StyleInfo(
    offset: u32,
    istd: u32,
    istdNext: u32,
    hasPageBreakBefore: bool,
    beforeIndent: u32,
    afterIndent: u32,
    leftIndent: i32,
    firstLineIndent: i32,
    rightIndent: i32,
    alignment: u32,
    fontStyle: bv32,
    fontSize: u32)

  // Style identifiers: the three heading styles and the reserved sentinels.
  const H1: u32 := 0x1
  const H2: u32 := 0x2
  const H3: u32 := 0x3
  const STI_USER: u32 := 0xFFE
  const STI_NIL: u32 := 0xFFF
  const ISTD_INVALID: u32 := 0xFFFF

  /** A section break at character `charPos`. */
  datatype SectionInfo = SectionInfo(charPos: u32, newPage: bool)

  /** The operand of a character toggle property. */
  datatype PrlFlag = Unset | Set | Unchanged | Negation
  {
    function Code(): u8
    {
      match this
      case Unset => 0
      case Set => 1
      case Unchanged => 128
      case Negation => 129
    }
  }

  /** The flag an operand byte encodes; None for the bytes that encode none. */
  function FlagOf(b: u8): Option<PrlFlag>
  {
    if b == 0 then Some(Unset)
    else if b == 1 then Some(Set)
    else if b == 128 then Some(Unchanged)
    else if b == 129 then Some(Negation)
    else None
  }

  /** A mask holding exactly one bit. */
  predicate SingleBit(m: bv32)
  {
    m != 0 && m & (m - 1) == 0
  }

  /** Whether the bit of the single-bit mask `m` is set in `s`. */
  predicate HasBit(s: bv32, m: bv32)
  {
    s & m != 0
  }

  /** The bits of `s` outside the mask `m`. */
  function OtherBits(s: bv32, m: bv32): bv32
  {
    s & !m
  }

  /** Applies one toggle operand to the bit `m` of `s`: UNSET clears it, SET
      sets it, UNCHANGED keeps the inherited value and NEGATION inverts it;
      no other bit is touched. */
  function ApplyFlag(s: bv32, m: bv32, flag: PrlFlag): (r: bv32)
    requires SingleBit(m)
    ensures OtherBits(r, m) == OtherBits(s, m)
    ensures HasBit(r, m) == match flag
                            case Unset => false
                            case Set => true
                            case Unchanged => HasBit(s, m)
                            case Negation => !HasBit(s, m)
  {
    match flag
    case Unset => ClearBit(s, m)
    case Set => SetBit(s, m)
    case Unchanged => s
    case Negation => FlipBit(s, m)
  }

  function ClearBit(s: bv32, m: bv32): (r: bv32)
    requires SingleBit(m)
    ensures OtherBits(r, m) == OtherBits(s, m) && !HasBit(r, m)
  {
    s & !m
  }

  function SetBit(s: bv32, m: bv32): (r: bv32)
    requires SingleBit(m)
    ensures OtherBits(r, m) == OtherBits(s, m) && HasBit(r, m)
  {
    s | m
  }

  function FlipBit(s: bv32, m: bv32): (r: bv32)
    requires SingleBit(m)
    ensures OtherBits(r, m) == OtherBits(s, m) && HasBit(r, m) == !HasBit(s, m)
  {
    s ^ m
  }

  /** Whether `font` is set in `style`. */
  predicate HasFont(style: bv32, font: Font)
  {
    HasBit(style, font.Mask())
  }

  /** The bits of `style` other than the one of `font`. */
  function OtherFonts(style: bv32, font: Font): bv32
  {
    OtherBits(style, font.Mask())
  }

  /** Applies one toggle operand to the bit of `font` in CharInfo.fontStyle:
      UNSET clears it, SET sets it, UNCHANGED keeps the inherited value and
      NEGATION inverts it; the other bits are left as they were. */
  function ApplyToggle(style: bv32, font: Font, flag: PrlFlag): (r: bv32)
    ensures OtherFonts(r, font) == OtherFonts(style, font)
    ensures HasFont(r, font) == match flag
                                case Unset => false
                                case Set => true
                                case Unchanged => HasFont(style, font)
                                case Negation => !HasFont(style, font)
  {
    MaskIsSingleBit(font);
    ApplyFlag(style, font.Mask(), flag)
  }

  /** Applies a raw operand byte: 0 clears the style, 128 keeps it, 129
      flips it, and every other byte sets it; the other styles stay. */
  function ApplyToggleByte(style: bv32, font: Font, operand: u8): (r: bv32)
    ensures OtherFonts(r, font) == OtherFonts(style, font)
    ensures operand == 0 ==> !HasFont(r, font)
    ensures operand == 128 ==> HasFont(r, font) == HasFont(style, font)
    ensures operand == 129 ==> HasFont(r, font) == !HasFont(style, font)
    ensures operand != 0 && operand != 128 && operand != 129 ==> HasFont(r, font)
  {
    match FlagOf(operand)
    case Some(flag) => ApplyToggle(style, font, flag)
    case None => ApplyToggle(style, font, Set)
  }

  // ---------------------------------------------------------------------
  // Lookups over the decoded style list

  /** The style id in force at character `offset`: the istd of the last
      entry whose start offset is at most `offset`, scanning the list from
      its beginning; ISTD_INVALID when every entry starts after `offset`. */
  method GetIstdByOffset(offset: u32, styleInfoList: seq<StyleInfo>) returns (istd: u32)
    ensures (forall i :: 0 <= i < |styleInfoList| ==> styleInfoList[i].offset > offset) ==> istd == ISTD_INVALID
    ensures forall k :: 0 <= k < |styleInfoList| && styleInfoList[k].offset <= offset &&
                        (forall j :: k < j < |styleInfoList| ==> styleInfoList[j].offset > offset)
                        ==> istd == styleInfoList[k].istd
  {
    istd := ISTD_INVALID;
    var last := -1;
    for i := 0 to |styleInfoList|
      invariant -1 <= last < i
      invariant last == -1 ==> istd == ISTD_INVALID
      invariant last == -1 ==> forall j :: 0 <= j < i ==> styleInfoList[j].offset > offset
      invariant last >= 0 ==> styleInfoList[last].offset <= offset && istd == styleInfoList[last].istd
      invariant forall j :: last < j < i ==> styleInfoList[j].offset > offset
    {
      if styleInfoList[i].offset <= offset {
        istd := styleInfoList[i].istd;
        last := i;
      }
    }
  }

  /** Entries whose offsets strictly increase. */
  predicate OffsetsIncrease(styleInfoList: seq<StyleInfo>)
  {
    forall i, j :: 0 <= i < j < |styleInfoList| ==> styleInfoList[i].offset < styleInfoList[j].offset
  }

  /** In a list ordered by offset, the entry chosen by GetIstdByOffset is the
      one whose span [offset, next offset) contains the target. */
  lemma {:induction false} SpanOwnerIsLastStarted(styleInfoList: seq<StyleInfo>, k: nat, target: u32)
    requires OffsetsIncrease(styleInfoList)
    requires k < |styleInfoList|
    requires styleInfoList[k].offset <= target
    requires k + 1 == |styleInfoList| || target < styleInfoList[k + 1].offset
    ensures forall j :: k < j < |styleInfoList| ==> styleInfoList[j].offset > target
  {
    forall j | k < j < |styleInfoList|
      ensures styleInfoList[j].offset > target
    {
      assert styleInfoList[k + 1].offset <= styleInfoList[j].offset;
    }
  }

  // ---------------------------------------------------------------------
  // Properties of the constants and of the toggle semantics

  /** Every style is a single bit. */
  lemma MaskIsSingleBit(f: Font)
    ensures SingleBit(f.Mask())
  {
    match f
    case Bold =>
    case Italic =>
    case Underline =>
    case Capitals =>
    case SmallCapitals =>
    case Strike =>
    case Hidden =>
    case MarkDel =>
    case Superscript =>
    case Subscript =>
  }

  /** Every style lies among the ten lowest bits. */
  lemma MaskIsLow(f: Font)
    ensures f.Mask() & !0x3FF == 0
  {
  }

  /** Distinct styles occupy disjoint bits, so the ten values are distinct. */
  lemma FontMasksDisjoint(f: Font, g: Font)
    requires f != g
    ensures f.Mask() & g.Mask() == 0
  {
  }

  /** REGULAR holds no style. */
  lemma RegularHasNoFont(f: Font)
    ensures !HasFont(REGULAR, f)
  {
  }

  /** Decoding a stored alignment code gives back the alignment, and only
      the four declared codes decode. */
  lemma AlignmentRoundTrip(a: Alignment, code: u32)
    ensures AlignmentOf(a.Code()) == Some(a)
    ensures AlignmentOf(code).Some? <==> code <= 3
    ensures AlignmentOf(code).Some? ==> AlignmentOf(code).value.Code() == code
  {
  }

  /** The flag bytes are 0, 1, 128 and 129, and decoding inverts encoding. */
  lemma PrlFlagRoundTrip(f: PrlFlag, b: u8)
    ensures FlagOf(f.Code()) == Some(f)
    ensures FlagOf(b).Some? <==> b == 0 || b == 1 || b == 128 || b == 129
    ensures FlagOf(b).Some? ==> FlagOf(b).value.Code() == b
  {
  }

  /** The style ids are pairwise distinct and the headings lie below both
      reserved sentinels, which lie below ISTD_INVALID. */
  lemma StyleIdsOrdered()
    ensures H1 < H2 < H3 < STI_USER < STI_NIL < ISTD_INVALID
  {
  }

  /** NEGATION applied twice restores the original set. */
  lemma NegationInvolutive(style: bv32, font: Font)
    ensures ApplyToggle(ApplyToggle(style, font, Negation), font, Negation) == style
  {
    MaskIsSingleBit(font);
    XorTwice(style, font.Mask());
  }

  /** UNCHANGED is the identity, not a copy of some other value. */
  lemma UnchangedIsIdentity(style: bv32, font: Font)
    ensures ApplyToggle(style, font, Unchanged) == style
  {
  }

  /** A later SET or UNSET on the same style overrides an earlier SET or
      UNSET. */
  lemma LaterOperandWins(style: bv32, font: Font, first: PrlFlag, second: PrlFlag)
    requires first == Set || first == Unset
    requires second == Set || second == Unset
    ensures ApplyToggle(ApplyToggle(style, font, first), font, second) == ApplyToggle(style, font, second)
  {
    MaskIsSingleBit(font);
    LaterFlagWins(style, font.Mask(), first, second);
  }

  lemma LaterFlagWins(s: bv32, m: bv32, first: PrlFlag, second: PrlFlag)
    requires SingleBit(m)
    requires first == Set || first == Unset
    requires second == Set || second == Unset
    ensures ApplyFlag(ApplyFlag(s, m, first), m, second) == ApplyFlag(s, m, second)
  {
    if first == Set {
      ApplySetIs(s, m);
      if second == Set {
        ApplySetIs(s | m, m);
        SetTwice(s, m);
      } else {
        ApplyUnsetIs(s | m, m);
        ApplyUnsetIs(s, m);
        ClearAfterSet(s, m);
      }
    } else {
      ApplyUnsetIs(s, m);
      if second == Set {
        ApplySetIs(s & !m, m);
        ApplySetIs(s, m);
        SetAfterClear(s, m);
      } else {
        ApplyUnsetIs(s & !m, m);
        ClearTwice(s, m);
      }
    }
  }

  /** Operands on distinct styles commute: their order in the operand stream
      does not matter. */
  lemma TogglesOnDistinctFontsCommute(style: bv32, f: Font, a: PrlFlag, g: Font, b: PrlFlag)
    requires f != g
    ensures ApplyToggle(ApplyToggle(style, f, a), g, b) == ApplyToggle(ApplyToggle(style, g, b), f, a)
  {
    MaskIsSingleBit(f);
    MaskIsSingleBit(g);
    FontMasksDisjoint(f, g);
    FlagsOnDisjointBitsCommute(style, f.Mask(), a, g.Mask(), b);
  }

  lemma FlagsOnDisjointBitsCommute(s: bv32, m1: bv32, x: PrlFlag, m2: bv32, y: PrlFlag)
    requires SingleBit(m1) && SingleBit(m2) && m1 & m2 == 0
    ensures ApplyFlag(ApplyFlag(s, m1, x), m2, y) == ApplyFlag(ApplyFlag(s, m2, y), m1, x)
  {
    if x == Unchanged || y == Unchanged {
    } else if x == Unset && y == Unset {
      UnsetThenUnsetCommute(s, m1, m2);
    } else if x == Unset && y == Set {
      UnsetThenSetCommute(s, m1, m2);
    } else if x == Unset && y == Negation {
      UnsetThenNegationCommute(s, m1, m2);
    } else if x == Set && y == Unset {
      SetThenUnsetCommute(s, m1, m2);
    } else if x == Set && y == Set {
      SetThenSetCommute(s, m1, m2);
    } else if x == Set && y == Negation {
      SetThenNegationCommute(s, m1, m2);
    } else if x == Negation && y == Unset {
      NegationThenUnsetCommute(s, m1, m2);
    } else if x == Negation && y == Set {
      NegationThenSetCommute(s, m1, m2);
    } else if x == Negation && y == Negation {
      NegationThenNegationCommute(s, m1, m2);
    }
  }

  // One lemma per pair of flags: each unfolds both orders of application
  // to plain bit operations and closes with the matching bit identity.

  lemma UnsetThenUnsetCommute(s: bv32, m1: bv32, m2: bv32)
    requires SingleBit(m1) && SingleBit(m2) && m1 & m2 == 0
    ensures ApplyFlag(ApplyFlag(s, m1, Unset), m2, Unset) == ApplyFlag(ApplyFlag(s, m2, Unset), m1, Unset)
  {
    ApplyUnsetIs(s, m1); ApplyUnsetIs(s & !m1, m2); ApplyUnsetIs(s, m2); ApplyUnsetIs(s & !m2, m1);
    ClearClearCommute(s, m1, m2);
  }

  lemma UnsetThenSetCommute(s: bv32, m1: bv32, m2: bv32)
    requires SingleBit(m1) && SingleBit(m2) && m1 & m2 == 0
    ensures ApplyFlag(ApplyFlag(s, m1, Unset), m2, Set) == ApplyFlag(ApplyFlag(s, m2, Set), m1, Unset)
  {
    ApplyUnsetIs(s, m1); ApplySetIs(s & !m1, m2); ApplySetIs(s, m2); ApplyUnsetIs(s | m2, m1);
    ClearSetCommute(s, m1, m2);
  }

  lemma UnsetThenNegationCommute(s: bv32, m1: bv32, m2: bv32)
    requires SingleBit(m1) && SingleBit(m2) && m1 & m2 == 0
    ensures ApplyFlag(ApplyFlag(s, m1, Unset), m2, Negation) == ApplyFlag(ApplyFlag(s, m2, Negation), m1, Unset)
  {
    ApplyUnsetIs(s, m1); ApplyNegationIs(s & !m1, m2); ApplyNegationIs(s, m2); ApplyUnsetIs(s ^ m2, m1);
    ClearFlipCommute(s, m1, m2);
  }

  lemma SetThenUnsetCommute(s: bv32, m1: bv32, m2: bv32)
    requires SingleBit(m1) && SingleBit(m2) && m1 & m2 == 0
    ensures ApplyFlag(ApplyFlag(s, m1, Set), m2, Unset) == ApplyFlag(ApplyFlag(s, m2, Unset), m1, Set)
  {
    ApplySetIs(s, m1); ApplyUnsetIs(s | m1, m2); ApplyUnsetIs(s, m2); ApplySetIs(s & !m2, m1);
    ClearSetCommute(s, m2, m1);
  }

  lemma SetThenSetCommute(s: bv32, m1: bv32, m2: bv32)
    requires SingleBit(m1) && SingleBit(m2) && m1 & m2 == 0
    ensures ApplyFlag(ApplyFlag(s, m1, Set), m2, Set) == ApplyFlag(ApplyFlag(s, m2, Set), m1, Set)
  {
    ApplySetIs(s, m1); ApplySetIs(s | m1, m2); ApplySetIs(s, m2); ApplySetIs(s | m2, m1);
    SetSetCommute(s, m1, m2);
  }

  lemma SetThenNegationCommute(s: bv32, m1: bv32, m2: bv32)
    requires SingleBit(m1) && SingleBit(m2) && m1 & m2 == 0
    ensures ApplyFlag(ApplyFlag(s, m1, Set), m2, Negation) == ApplyFlag(ApplyFlag(s, m2, Negation), m1, Set)
  {
    ApplySetIs(s, m1); ApplyNegationIs(s | m1, m2); ApplyNegationIs(s, m2); ApplySetIs(s ^ m2, m1);
    SetFlipCommute(s, m1, m2);
  }

  lemma NegationThenUnsetCommute(s: bv32, m1: bv32, m2: bv32)
    requires SingleBit(m1) && SingleBit(m2) && m1 & m2 == 0
    ensures ApplyFlag(ApplyFlag(s, m1, Negation), m2, Unset) == ApplyFlag(ApplyFlag(s, m2, Unset), m1, Negation)
  {
    ApplyNegationIs(s, m1); ApplyUnsetIs(s ^ m1, m2); ApplyUnsetIs(s, m2); ApplyNegationIs(s & !m2, m1);
    ClearFlipCommute(s, m2, m1);
  }

  lemma NegationThenSetCommute(s: bv32, m1: bv32, m2: bv32)
    requires SingleBit(m1) && SingleBit(m2) && m1 & m2 == 0
    ensures ApplyFlag(ApplyFlag(s, m1, Negation), m2, Set) == ApplyFlag(ApplyFlag(s, m2, Set), m1, Negation)
  {
    ApplyNegationIs(s, m1); ApplySetIs(s ^ m1, m2); ApplySetIs(s, m2); ApplyNegationIs(s | m2, m1);
    SetFlipCommute(s, m2, m1);
  }

  lemma NegationThenNegationCommute(s: bv32, m1: bv32, m2: bv32)
    requires SingleBit(m1) && SingleBit(m2) && m1 & m2 == 0
    ensures ApplyFlag(ApplyFlag(s, m1, Negation), m2, Negation) == ApplyFlag(ApplyFlag(s, m2, Negation), m1, Negation)
  {
    ApplyNegationIs(s, m1); ApplyNegationIs(s ^ m1, m2); ApplyNegationIs(s, m2); ApplyNegationIs(s ^ m2, m1);
    FlipFlipCommute(s, m1, m2);
  }

  // Bit-level identities behind the lemmas above, kept apart so that each
  // obligation stays small.

  lemma ApplyUnsetIs(s: bv32, m: bv32)
    requires SingleBit(m)
    ensures ApplyFlag(s, m, Unset) == s & !m
  {
  }

  lemma ApplySetIs(s: bv32, m: bv32)
    requires SingleBit(m)
    ensures ApplyFlag(s, m, Set) == s | m
  {
  }

  lemma ApplyNegationIs(s: bv32, m: bv32)
    requires SingleBit(m)
    ensures ApplyFlag(s, m, Negation) == s ^ m
  {
  }

  lemma XorTwice(s: bv32, m: bv32)
    ensures (s ^ m) ^ m == s
  {
  }

  lemma SetTwice(s: bv32, m: bv32)
    ensures (s | m) | m == s | m
  {
  }

  lemma ClearTwice(s: bv32, m: bv32)
    ensures (s & !m) & !m == s & !m
  {
  }

  lemma ClearAfterSet(s: bv32, m: bv32)
    ensures (s | m) & !m == s & !m
  {
  }

  lemma SetAfterClear(s: bv32, m: bv32)
    ensures (s & !m) | m == s | m
  {
  }

  lemma ClearClearCommute(s: bv32, m1: bv32, m2: bv32)
    ensures (s & !m1) & !m2 == (s & !m2) & !m1
  {
  }

  lemma ClearSetCommute(s: bv32, m1: bv32, m2: bv32)
    requires m1 & m2 == 0
    ensures (s & !m1) | m2 == (s | m2) & !m1
  {
  }

  lemma ClearFlipCommute(s: bv32, m1: bv32, m2: bv32)
    requires m1 & m2 == 0
    ensures (s & !m1) ^ m2 == (s ^ m2) & !m1
  {
  }

  lemma SetSetCommute(s: bv32, m1: bv32, m2: bv32)
    ensures (s | m1) | m2 == (s | m2) | m1
  {
  }

  lemma SetFlipCommute(s: bv32, m1: bv32, m2: bv32)
    requires m1 & m2 == 0
    ensures (s | m1) ^ m2 == (s ^ m2) | m1
  {
  }

  lemma FlipFlipCommute(s: bv32, m1: bv32, m2: bv32)
    ensures (s ^ m1) ^ m2 == (s ^ m2) ^ m1
  {
  }

  // ---------------------------------------------------------------------
  // The stream's published lists

  /** The decoded lists of one main stream. The readers that fill them are
      not part of this model; the accessors only read. */
  class OleMainStream {
    var startOfText: i32
    var endOfText: i32
    var pieces: seq<Piece>
    var styleSheetCharInfo: seq<CharInfo>
    var styleSheetStyleInfo: seq<StyleInfo>
    var charInfoList: seq<CharInfo>
    var styleInfoList: seq<StyleInfo>
    var sectionInfoList: seq<SectionInfo>

    method GetPieces() returns (r: seq<Piece>)
      ensures r == pieces
    {
      r := pieces;
    }

    method GetCharInfoList() returns (r: seq<CharInfo>)
      ensures r == charInfoList
    {
      r := charInfoList;
    }

    method GetStyleInfoList() returns (r: seq<StyleInfo>)
      ensures r == styleInfoList
    {
      r := styleInfoList;
    }
  }
}
