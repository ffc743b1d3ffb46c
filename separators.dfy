/** The envelope separator resolver: reads the fixed-width ISA interchange
    header (ISA01 to ISA16 of the ASC X12 interchange control structure) and
    derives the delimiters the rest of the document uses. */
module Separators {
  import opened Wrappers
  import opened Text

  /** `MessageSeparators`; a missing repetition separator is C#'s null. */
  datatype MessageSeparators = MessageSeparators(
    segmentSeparator: string,
    dataElementSeparator: string,
    componentElementSeparator: string,
    repetitionSeparator: Option<string>)

  /** `MessageSeparators.Default`: the property initialisers, four distinct
      one-character delimiters. */
  function Default(): (s: MessageSeparators)
    ensures |s.segmentSeparator| == |s.dataElementSeparator| == |s.componentElementSeparator| == 1
    ensures s.repetitionSeparator.Some? && |s.repetitionSeparator.value| == 1
    ensures var d := [s.segmentSeparator[0], s.dataElementSeparator[0], s.componentElementSeparator[0],
                      s.repetitionSeparator.value[0]];
      forall i, j :: 0 <= i < j < 4 ==> d[i] != d[j]
  {
    MessageSeparators("~", "*", ">", Some("|"))
  }

  /** The widths of ISA01 to ISA16 that the resolver walks. */
  const IsaFieldLengths: seq<nat> := [2, 10, 2, 10, 2, 15, 2, 15, 6, 4, 1, 5, 9, 1, 1, 1]

  // Positions below are counted from the `I` of "ISA".

  const FieldCount: nat := 16
  const SeparatorCount: nat := 15

  /** Where field `i` (ISA01 is field 0) starts. */
  function FieldOffset(i: nat): nat
    requires i < FieldCount
  {
    match i
    case 0 => 4   case 1 => 7   case 2 => 18  case 3 => 21
    case 4 => 32  case 5 => 35  case 6 => 51  case 7 => 54
    case 8 => 70  case 9 => 77  case 10 => 82 case 11 => 84
    case 12 => 90 case 13 => 100 case 14 => 102 case 15 => 104
  }

  /** Where the element separator after field `k` (ISA01 is field 0) sits. */
  function SeparatorOffset(k: nat): nat
    requires k < SeparatorCount
  {
    match k
    case 0 => 6   case 1 => 17  case 2 => 20  case 3 => 31
    case 4 => 34  case 5 => 50  case 6 => 53  case 7 => 69
    case 8 => 76  case 9 => 81  case 10 => 83 case 11 => 89
    case 12 => 99 case 13 => 101 case 14 => 103
  }

  const ElementSeparatorOffset: nat := 3
  const RepetitionOffset: nat := 82   // ISA11, one character
  const VersionOffset: nat := 84      // ISA12, five characters
  const ComponentOffset: nat := 104   // ISA16, one character
  const TerminatorOffset: nat := 105
  /** "ISA", the separator, 86 field characters, 15 separators, terminator. */
  const EnvelopeLength: nat := 106

  /** ISA12 marks version 00501 or later when its trimmed text parses as an
      integer of at least 501; blank text never does. */
  predicate IsVersion00501OrHigher(isa12: string)
    ensures IsVersion00501OrHigher(isa12) ==> Trim(isa12) != []
  {
    var v := ParseInt(Trim(isa12));
    v.Some? && v.value >= 501
  }

  /** The header at `p` has its full length and the element separator after
      each of ISA01 to ISA15. */
  predicate WellFormedAt(t: string, p: nat)
    ensures WellFormedAt(t, p) ==>
      p + TerminatorOffset < |t| && t[p + ComponentOffset - 1] == t[p + ElementSeparatorOffset]
  {
    assert SeparatorOffset(SeparatorCount - 1) == ComponentOffset - 1;
    p + EnvelopeLength <= |t| &&
    forall k :: 0 <= k < SeparatorCount ==> t[p + SeparatorOffset(k)] == t[p + ElementSeparatorOffset]
  }

  /** The separators a well-formed header at `p` declares. */
  function HeaderSeparators(t: string, p: nat): (s: MessageSeparators)
    requires p + EnvelopeLength <= |t|
    ensures |s.segmentSeparator| == 1 && |s.dataElementSeparator| == 1
    ensures |s.componentElementSeparator| == 1
    ensures s.repetitionSeparator.Some? ==> |s.repetitionSeparator.value| == 1
  {
    var isa12 := t[p + VersionOffset..p + VersionOffset + 5];
    MessageSeparators(
      [t[p + TerminatorOffset]],
      [t[p + ElementSeparatorOffset]],
      [t[p + ComponentOffset]],
      if IsVersion00501OrHigher(isa12) then Some([t[p + RepetitionOffset]]) else None)
  }

  /** The separators declared by the header at the first "ISA" of text whose
      byte-order marks are already stripped. */
  function ResolveHeader(t: string): (r: Result<MessageSeparators>)
    ensures r.Failure? ==> r.error == FormatError
    ensures r.Success? <==> IndexOf(t, "ISA").Some? && WellFormedAt(t, IndexOf(t, "ISA").value)
  {
    match IndexOf(t, "ISA")
    case None => Failure(FormatError)
    case Some(p) =>
      if WellFormedAt(t, p) then Success(HeaderSeparators(t, p)) else Failure(FormatError)
  }

  /** `GetMessageSeparators` stated through the fixed offsets. */
  function Resolve(text: string): (r: Result<MessageSeparators>)
    ensures r == Failure(ArgumentError) <==> text == []
  {
    if text == [] then Failure(ArgumentError) else ResolveHeader(TrimStartBom(text))
  }

  /** How the width table and the offset tables fit together at field `i`. */
  lemma LayoutAt(i: nat)
    requires i < FieldCount
    ensures |IsaFieldLengths| == FieldCount == SeparatorCount + 1
    ensures i < SeparatorCount ==> FieldOffset(i) + IsaFieldLengths[i] == SeparatorOffset(i)
    ensures i < SeparatorCount ==> SeparatorOffset(i) + 1 == FieldOffset(i + 1)
    ensures i == SeparatorCount ==> FieldOffset(i) + IsaFieldLengths[i] == TerminatorOffset
  {
  }

  /** A text that ends inside the header at `p` is not well formed there. */
  lemma TruncatedAt(t: string, p: nat, n: nat)
    requires n <= EnvelopeLength && |t| < p + n
    ensures !WellFormedAt(t, p)
  {
  }

  /** Resolve once the header has been located at `p`. */
  lemma ResolveAt(text: string, p: nat)
    requires text != [] && IndexOf(TrimStartBom(text), "ISA") == Some(p)
    ensures Resolve(text) ==
      if WellFormedAt(TrimStartBom(text), p) then Success(HeaderSeparators(TrimStartBom(text), p))
      else Failure(FormatError)
  {
  }

  /** `GetMessageSeparators`: locates "ISA" after the byte-order marks,
      walks the fixed-width fields there, reads the segment terminator after
      ISA16 and decides on the repetition separator from ISA12. */
  method GetMessageSeparators(text: string) returns (r: Result<MessageSeparators>)
    ensures r == Resolve(text)
  {
    if text == [] {
      return Failure(ArgumentError);
    }
    var t := TrimStartBom(text);
    var found := IndexOf(t, "ISA");
    if found.None? {
      return Failure(FormatError);
    }
    ResolveAt(text, found.value);
    r := ReadHeader(t, found.value);
  }

  /** The part of `GetMessageSeparators` after "ISA" has been found at
      `isaPos` in the text without byte-order marks. */
  method ReadHeader(t: string, isaPos: nat) returns (r: Result<MessageSeparators>)
    ensures r == if WellFormedAt(t, isaPos) then Success(HeaderSeparators(t, isaPos)) else Failure(FormatError)
  {
    if |t| < isaPos + 4 {
      TruncatedAt(t, isaPos, 4);
      return Failure(FormatError);
    }
    var elementSep := t[isaPos + 3];
    var ok, cursor, isa11, isa12, isa16 := WalkFields(t, isaPos);
    if !ok {
      return Failure(FormatError);
    }
    if |t| <= cursor {
      TruncatedAt(t, isaPos, EnvelopeLength);
      return Failure(FormatError);
    }
    var segmentTerminator := t[cursor];
    // ISA16 was read with width 1, so the length check on it can never fail.
    assert |isa16| == 1;
    var is00501OrHigher := false;
    if !IsWhiteSpaceOnly(isa12) {
      var ver := ParseInt(Trim(isa12));
      if ver.Some? {
        is00501OrHigher := ver.value >= 501;
      }
    } else {
      TrimWhiteSpaceOnly(isa12);
    }
    r := Success(MessageSeparators(
      [segmentTerminator], [elementSep], isa16,
      if is00501OrHigher then Some(isa11) else None));
  }

  /** The loop of `GetMessageSeparators`: reads ISA01 to ISA16 with a cursor
      starting after "ISA" and the element separator, checking the element
      separator after each of the first fifteen, and keeps ISA11, ISA12 and
      ISA16. It fails exactly when the text is too short for the sixteen
      fields or a separator is missing. */
  method WalkFields(t: string, isaPos: nat)
    returns (ok: bool, cursor: nat, isa11: string, isa12: string, isa16: string)
    requires isaPos + 4 <= |t|
    ensures ok <==> (isaPos + TerminatorOffset <= |t| &&
      forall k :: 0 <= k < SeparatorCount ==> t[isaPos + SeparatorOffset(k)] == t[isaPos + ElementSeparatorOffset])
    ensures ok ==> cursor == isaPos + TerminatorOffset
    ensures ok ==> isa11 == [t[isaPos + RepetitionOffset]]
    ensures ok ==> isa12 == t[isaPos + VersionOffset..isaPos + VersionOffset + 5]
    ensures ok ==> isa16 == [t[isaPos + ComponentOffset]]
  {
    var elementSep := t[isaPos + 3];
    cursor := isaPos + 4;
    isa11, isa12, isa16 := "", "", "";
    var i := 0;
    while i < |IsaFieldLengths|
      invariant 0 <= i <= |IsaFieldLengths|
      invariant cursor == isaPos + if i < FieldCount then FieldOffset(i) else TerminatorOffset
      invariant cursor <= |t|
      invariant forall k :: 0 <= k < i && k < SeparatorCount ==> t[isaPos + SeparatorOffset(k)] == elementSep
      invariant i > 10 ==> isa11 == [t[isaPos + RepetitionOffset]]
      invariant i > 11 ==> isa12 == t[isaPos + VersionOffset..isaPos + VersionOffset + 5]
      invariant i > 15 ==> isa16 == [t[isaPos + ComponentOffset]]
    {
      LayoutAt(i);
      var len := IsaFieldLengths[i];
      assert cursor + len <= isaPos + TerminatorOffset;
      if |t| < cursor + len {
        return false, cursor, isa11, isa12, isa16;
      }
      var value := t[cursor..cursor + len];
      cursor := cursor + len;
      if i == 10 {
        isa11 := value;
        assert isa11 == [t[isaPos + RepetitionOffset]];
      } else if i == 11 {
        isa12 := value;
      } else if i == 15 {
        isa16 := value;
        assert isa16 == [t[isaPos + ComponentOffset]];
      }
      if i < |IsaFieldLengths| - 1 {
        assert cursor == isaPos + SeparatorOffset(i);
        if |t| <= cursor {
          return false, cursor, isa11, isa12, isa16;
        }
        if t[cursor] != elementSep {
          return false, cursor, isa11, isa12, isa16;
        }
        cursor := cursor + 1;
      }
      i := i + 1;
    }
    ok := true;
  }

  /** `GetMessageSeparatorsOrDefault`: never fails; any error is replaced by
      the default separators. */
  method GetMessageSeparatorsOrDefault(text: string) returns (r: MessageSeparators)
    ensures Resolve(text).Success? ==> r == Resolve(text).value
    ensures Resolve(text).Failure? ==> r == Default()
  {
    var res := GetMessageSeparators(text);
    if res.Success? {
      r := res.value;
    } else {
      r := Default();
    }
  }

  /** `ResolveHeader` succeeds exactly when "ISA" occurs, the whole header
      fits and the element separator follows each of ISA01 to ISA15. */
  lemma HeaderSucceeds(t: string)
    ensures ResolveHeader(t).Success? <==>
      IndexOf(t, "ISA").Some? && IndexOf(t, "ISA").value + 106 <= |t| &&
      forall k :: 0 <= k < 15 ==> t[IndexOf(t, "ISA").value + SeparatorOffset(k)] == t[IndexOf(t, "ISA").value + 3]
  {
    var found := IndexOf(t, "ISA");
    if found.Some? {
      var p := found.value;
      assert WellFormedAt(t, p) <==>
        p + 106 <= |t| && forall k :: 0 <= k < 15 ==> t[p + SeparatorOffset(k)] == t[p + 3];
    }
  }

  /** Resolution succeeds exactly when the text is not empty and its
      remainder `t` after the byte-order marks contains "ISA", is long
      enough for the whole header and has the element separator after each
      of ISA01 to ISA15. */
  lemma ResolveSucceeds(text: string, t: string)
    requires t == TrimStartBom(text)
    ensures Resolve(text).Success? <==>
      text != [] && IndexOf(t, "ISA").Some? && IndexOf(t, "ISA").value + 106 <= |t| &&
      forall k :: 0 <= k < 15 ==> t[IndexOf(t, "ISA").value + SeparatorOffset(k)] == t[IndexOf(t, "ISA").value + 3]
  {
    HeaderSucceeds(t);
  }

  /** What a successful resolution returns, by position from the `I` of
      "ISA": the element separator at 3, ISA16 at 104, the terminator at 105,
      and ISA11 at 82 exactly when ISA12 at 84 to 88 marks 00501 or later. */
  lemma ResolvedSeparators(text: string)
    requires Resolve(text).Success?
    ensures IndexOf(TrimStartBom(text), "ISA").Some?
    ensures var t := TrimStartBom(text);
      var p := IndexOf(t, "ISA").value;
      var s := Resolve(text).value;
      p + 106 <= |t| &&
      s.dataElementSeparator == [t[p + 3]] &&
      s.componentElementSeparator == [t[p + 104]] &&
      s.segmentSeparator == [t[p + 105]] &&
      s.repetitionSeparator == (if IsVersion00501OrHigher(t[p + 84..p + 89]) then Some([t[p + 82]]) else None)
  {
  }

  /** How many characters of the text the header occupies, byte-order marks
      and terminator included. */
  function EnvelopeEnd(text: string): nat
    requires IndexOf(TrimStartBom(text), "ISA").Some?
  {
    BomCount(text) + IndexOf(TrimStartBom(text), "ISA").value + EnvelopeLength
  }

  /** Cutting a resolvable document anywhere before the end of its header
      makes it unresolvable. */
  lemma TruncatedEnvelopeFails(text: string, n: nat)
    requires Resolve(text).Success?
    requires n < EnvelopeEnd(text)
    ensures n <= |text| && Resolve(text[..n]).Failure?
  {
    var t := TrimStartBom(text);
    var p := IndexOf(t, "ISA").value;
    TrimStartBomPrefix(text, n);
    if n > BomCount(text) {
      assert TrimStartBom(text[..n]) == t[..n - BomCount(text)];
      IndexOfPrefix(t, "ISA", n - BomCount(text));
    }
  }

  /** A complete header reads the same whatever text follows it. */
  lemma HeaderExtend(t: string, p: nat, rest: string)
    requires p + EnvelopeLength <= |t|
    ensures WellFormedAt(t + rest, p) == WellFormedAt(t, p)
    ensures HeaderSeparators(t + rest, p) == HeaderSeparators(t, p)
  {
    assert forall k :: 0 <= k < |t| ==> (t + rest)[k] == t[k];
    assert (t + rest)[p + VersionOffset..p + VersionOffset + 5] == t[p + VersionOffset..p + VersionOffset + 5];
  }

  /** What follows the header does not change what it resolves to. */
  lemma ResolveIgnoresTrailingText(text: string, rest: string)
    requires Resolve(text).Success?
    ensures Resolve(text + rest) == Resolve(text)
  {
    var t := TrimStartBom(text);
    TrimStartBomAppend(text, rest);
    IndexOfExtend(t, "ISA", rest);
    HeaderExtend(t, IndexOf(t, "ISA").value, rest);
  }

  /** A leading byte-order mark is skipped. */
  lemma LeadingBomIgnored(text: string)
    requires text != []
    ensures Resolve([Bom] + text) == Resolve(text)
  {
    assert ([Bom] + text)[1..] == text;
  }

  /** For a version written as five digits, the repetition separator is
      present exactly when the version number is at least 501. */
  lemma VersionThreshold(isa12: string)
    requires |isa12| == 5 && AllDigits(isa12)
    ensures IsVersion00501OrHigher(isa12) <==> DigitsValue(isa12) >= 501
  {
    TrimUnchanged(isa12);
    ParseIntDigits(isa12);
  }

  /** Sixteen field values of exactly the ISA widths. */
  predicate FieldsFit(fields: seq<string>) {
    |fields| == FieldCount &&
    forall i :: 0 <= i < FieldCount ==> |fields[i]| == IsaFieldLengths[i]
  }

  /** The header an encoder writes: "ISA", the element separator, the sixteen
      fields separated by it, and the segment terminator. */
  function Compose(fields: seq<string>, elementSep: char, terminator: char): (h: string)
    requires |fields| == FieldCount
  {
    "ISA" + [elementSep] + Join(fields, elementSep) + [terminator]
  }

  /** The fields of a composed header start at the fixed offsets. */
  lemma {:induction false} ComposeOffsets(fields: seq<string>, i: nat)
    requires FieldsFit(fields) && i < FieldCount
    ensures JoinStart(fields, i) + 4 == FieldOffset(i)
  {
    if i > 0 {
      ComposeOffsets(fields, i - 1);
      LayoutAt(i - 1);
    }
  }

  /** Where field `i` and the character after it sit in a composed header. */
  lemma ComposedFieldAt(fields: seq<string>, elementSep: char, terminator: char, i: nat)
    requires FieldsFit(fields) && i < FieldCount
    ensures FieldOffset(i) + IsaFieldLengths[i] < |Compose(fields, elementSep, terminator)|
    ensures Compose(fields, elementSep, terminator)[FieldOffset(i)..FieldOffset(i) + IsaFieldLengths[i]] == fields[i]
    ensures i < SeparatorCount ==> Compose(fields, elementSep, terminator)[SeparatorOffset(i)] == elementSep
  {
    var h := Compose(fields, elementSep, terminator);
    var j := Join(fields, elementSep);
    ComposeOffsets(fields, i);
    LayoutAt(i);
    JoinAt(fields, elementSep, i);
    JoinSeparatorAt(fields, elementSep, i);
    var st := JoinStart(fields, i);
    assert h == "ISA" + [elementSep] + j + [terminator];
    MiddleSlice("ISA" + [elementSep], j, [terminator], st, st + |fields[i]|);
  }

  /** The slices of `p + m + q` that fall inside `m`. */
  lemma MiddleSlice(p: string, m: string, q: string, a: nat, b: nat)
    requires a <= b <= |m|
    ensures (p + m + q)[|p| + a..|p| + b] == m[a..b]
    ensures b < |m| ==> (p + m + q)[|p| + b] == m[b]
  {
    assert (p + m + q)[|p|..|p| + |m|] == m;
  }

  /** Reading back a composed header gives the separators it was composed
      with: the terminator, the element separator, ISA16 and, when ISA12 says
      00501 or later, ISA11. */
  lemma ComposeResolves(fields: seq<string>, elementSep: char, terminator: char)
    requires FieldsFit(fields)
    ensures Resolve(Compose(fields, elementSep, terminator)) ==
      Success(MessageSeparators([terminator], [elementSep], fields[15],
        if IsVersion00501OrHigher(fields[11]) then Some(fields[10]) else None))
  {
    var h := Compose(fields, elementSep, terminator);
    JoinSeparatorAt(fields, elementSep, 15);
    ComposeOffsets(fields, 15);
    assert |h| == EnvelopeLength;
    assert h[..3] == "ISA";
    assert OccursAt(h, "ISA", 0);
    assert IndexOf(h, "ISA") == Some(0);
    forall k | 0 <= k < SeparatorCount
      ensures h[SeparatorOffset(k)] == h[ElementSeparatorOffset]
    {
      ComposedFieldAt(fields, elementSep, terminator, k);
    }
    assert WellFormedAt(h, 0);
    ComposedFieldAt(fields, elementSep, terminator, 10);
    ComposedFieldAt(fields, elementSep, terminator, 11);
    ComposedFieldAt(fields, elementSep, terminator, 15);
    assert [h[RepetitionOffset]] == h[RepetitionOffset..RepetitionOffset + 1] == fields[10];
    assert [h[ComponentOffset]] == h[ComponentOffset..ComponentOffset + 1] == fields[15];
    assert h[VersionOffset..VersionOffset + 5] == fields[11];
    assert h[0] != Bom;
    assert TrimStartBom(h) == h;
    assert Resolve(h) == Success(HeaderSeparators(h, 0));
    assert h[TerminatorOffset] == terminator;
    assert h[ElementSeparatorOffset] == elementSep;
  }

  /** ISA01 to ISA16 of a sample interchange, with ISA11 and ISA12 open. */
  function SampleFields(isa11: char, isa12: string): (fields: seq<string>)
    requires |isa12| == 5
    ensures FieldsFit(fields)
    ensures fields[10] == [isa11] && fields[11] == isa12 && fields[15] == ">"
  {
    ["00", "          ", "00", "          ", "ZZ", "SENDER         ", "ZZ", "RECEIVER       ",
     "210101", "1200", [isa11], isa12, "000000001", "0", "P", ">"]
  }

  /** "00501" marks version 00501 or later. */
  lemma Version00501()
    ensures IsVersion00501OrHigher("00501")
  {
    VersionThreshold("00501");
    Digits00501();
  }

  lemma Digits00501()
    ensures DigitsValue("00501") == 501
  {
    assert "00501"[..4] == "0050";
    assert "0050"[..3] == "005";
    assert "005"[..2] == "00";
    assert "00"[..1] == "0";
  }

  /** "00401" does not. */
  lemma Version00401()
    ensures !IsVersion00501OrHigher("00401")
  {
    VersionThreshold("00401");
    Digits00401();
  }

  lemma Digits00401()
    ensures DigitsValue("00401") == 401
  {
    assert "00401"[..4] == "0040";
    assert "0040"[..3] == "004";
    assert "004"[..2] == "00";
    assert "00"[..1] == "0";
  }

  /** Nor does a blank ISA12. */
  lemma VersionBlank()
    ensures !IsVersion00501OrHigher("     ")
  {
    TrimWhiteSpaceOnly("     ");
  }

  /** An 00501 header publishes ISA11 as the repetition separator. */
  lemma Version00501Example()
    ensures Resolve(Compose(SampleFields('^', "00501"), '*', '~')) ==
      Success(MessageSeparators("~", "*", ">", Some("^")))
  {
    var f := SampleFields('^', "00501");
    ComposeResolves(f, '*', '~');
    Version00501();
  }

  /** An 00401 header has no repetition separator, whatever ISA11 holds. */
  lemma Version00401Example()
    ensures Resolve(Compose(SampleFields('U', "00401"), '*', '~')) ==
      Success(MessageSeparators("~", "*", ">", None))
  {
    var f := SampleFields('U', "00401");
    ComposeResolves(f, '*', '~');
    Version00401();
  }

  /** A header whose ISA12 is blank has no repetition separator. */
  lemma BlankVersionExample()
    ensures Resolve(Compose(SampleFields('^', "     "), '*', '~')) ==
      Success(MessageSeparators("~", "*", ">", None))
  {
    var f := SampleFields('^', "     ");
    ComposeResolves(f, '*', '~');
    VersionBlank();
  }

  /** Nothing requires the delimiters to differ: a header whose terminator is
      its element separator still resolves, to equal separators. */
  lemma SameTerminatorAndElementSeparator()
    ensures Resolve(Compose(SampleFields('^', "00501"), '*', '*')).Success?
    ensures Resolve(Compose(SampleFields('^', "00501"), '*', '*')).value.segmentSeparator == "*"
    ensures Resolve(Compose(SampleFields('^', "00501"), '*', '*')).value.dataElementSeparator == "*"
  {
    ComposeResolves(SampleFields('^', "00501"), '*', '*');
  }
}
