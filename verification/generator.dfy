/** The build script: read the map SVG, drop its XML declaration, move the
    Okinawa group to the bottom right, and wrap the result between the page's
    head and tail templates. File reads and writes are inputs here. */
module Generator {
  import opened Wrappers
  import opened Text
  import opened Replace

  const XmlDeclOpen := "<?xml"
  const XmlDeclClose := "?>"

  /** Attributes that identify the Okinawa prefecture group in the map. */
  const OkinawaGroup := OkinawaClass + OkinawaCode
  const OkinawaClass := "class=\"okinawa kyushu-okinawa prefecture\""
  const OkinawaCode := " data-code=\"47\""
  /** The group's transform in the source map, and where it is moved to. */
  const OldTransform := "transform=\"translate(52.000000, 193.000000)\""
  const NewTransform := "transform=\"translate(600.000000, 800.000000)\""

  /** Why a build stops with exit status 1. */
  datatype BuildError =
    | ReadFailed               // the SVG could not be opened or decoded
    | UnterminatedDeclaration  // the SVG starts with `<?xml` but has no `?>`
    | WriteFailed              // the page could not be written

  /** The console message of the Okinawa step; none of them stops the build. */
  datatype Notice = OkinawaMoved | TransformNotFound | GroupNotFound

  datatype Edit = Edit(svg: string, notice: Notice)

  /** The page's fixed HTML before and after the map. Their literal content
      (markup, style sheet, script) is not modelled; every property below
      holds for any head and tail. */
  datatype Template = Template(head: string, tail: string)

  /** The build either writes a page (exit status 0) or stops with an error
      (exit status 1). */
  datatype Outcome = Written(page: string) | Aborted(error: BuildError) {
    function ExitStatus(): int {
      if Written? then 0 else 1
    }
  }

  /** Drops a leading XML declaration: the text after the first `?>`, with
      surrounding whitespace stripped. Only a text that begins with `<?xml`
      exactly is touched. */
  function StripDeclaration(svg: string): (r: Result<string, BuildError>)
    ensures !StartsWith(svg, XmlDeclOpen) ==> r == Success(svg)
    ensures StartsWith(svg, XmlDeclOpen) && !Contains(svg, XmlDeclClose) ==>
      r == Failure(UnterminatedDeclaration)
    ensures StartsWith(svg, XmlDeclOpen) ==>
      forall i :: FirstOccurrence(svg, XmlDeclClose, i) ==>
        r == Success(Trim(PythonWhitespace, svg[i + |XmlDeclClose|..]))
  {
    if !StartsWith(svg, XmlDeclOpen) then Success(svg)
    else
      match IndexOf(svg, XmlDeclClose)
      case None => Failure(UnterminatedDeclaration)
      case Some(i) =>
        FirstOccurrenceUnique(svg, XmlDeclClose, i);
        Success(Trim(PythonWhitespace, svg[i + |XmlDeclClose|..]))
  }

  /** Stripping keeps what follows the first `?>`: any later `?>`, and any
      other pattern without whitespace at its ends, survives. */
  lemma StripKeepsLaterText(svg: string, i: nat, pat: string)
    requires StartsWith(svg, XmlDeclOpen) && FirstOccurrence(svg, XmlDeclClose, i)
    requires pat != [] && Tight(PythonWhitespace, pat) && Contains(svg[i + |XmlDeclClose|..], pat)
    ensures StripDeclaration(svg).Success?
    ensures Contains(StripDeclaration(svg).value, pat)
  {
    TrimKeepsTightPattern(PythonWhitespace, svg[i + |XmlDeclClose|..], pat);
  }

  /** Where the letter `t` sits in the two transform literals. */
  lemma TransformLetterT()
    ensures forall k :: 0 <= k < |OldTransform| && OldTransform[k] == 't' ==> k == 0 || k == 11 || k == 18
    ensures forall k :: 0 <= k < |NewTransform| && NewTransform[k] == 't' ==> k == 0 || k == 11 || k == 18
  {
  }

  /** The letters that tell the literals apart after a shared `t`. */
  lemma TransformLetters()
    ensures |OldTransform| == 44 && |NewTransform| == 45
    ensures OldTransform[0] == NewTransform[0] == 't'
    ensures OldTransform[1] == NewTransform[1] == 'r'
    ensures OldTransform[5] == NewTransform[5] == 'f'
    ensures OldTransform[16] == NewTransform[16] == 'l'
    ensures OldTransform[19] == NewTransform[19] == 'e'
    ensures OldTransform[21] == '5' && NewTransform[21] == '6'
  {
  }

  /** The two transform literals never recreate each other: no match of the
      old one can start inside the new one or run into its start, and no
      proper suffix of the new one is a prefix of it. */
  lemma OkinawaTransformsSeparate()
    ensures SelfSeparating(OldTransform, NewTransform)
    ensures SuffixesClash(NewTransform, NewTransform)
  {
    OldSuffixesClash();
    NewNeverStartsOld();
    NewSuffixesClash();
  }

  lemma OldSuffixesClash()
    ensures SuffixesClash(OldTransform, NewTransform)
  {
    TransformLetterT();
    TransformLetters();
    forall k | 1 <= k < |OldTransform| ensures Clash(OldTransform[k..], NewTransform) {
      if k == 11 {
        assert OldTransform[k..][5] != NewTransform[5];
      } else if k == 18 {
        assert OldTransform[k..][1] != NewTransform[1];
      } else {
        assert OldTransform[k] != 't';
        assert OldTransform[k..][0] != NewTransform[0];
      }
    }
  }

  lemma NewNeverStartsOld()
    ensures forall p :: 0 <= p < |NewTransform| ==> Clash(NewTransform[p..], OldTransform)
  {
    TransformLetterT();
    TransformLetters();
    forall p | 0 <= p < |NewTransform| ensures Clash(NewTransform[p..], OldTransform) {
      if p == 0 {
        assert NewTransform[p..][21] != OldTransform[21];
      } else if p == 11 {
        assert NewTransform[p..][5] != OldTransform[5];
      } else if p == 18 {
        assert NewTransform[p..][1] != OldTransform[1];
      } else {
        assert NewTransform[p] != 't';
        assert NewTransform[p..][0] != OldTransform[0];
      }
    }
  }

  lemma NewSuffixesClash()
    ensures SuffixesClash(NewTransform, NewTransform)
  {
    TransformLetterT();
    TransformLetters();
    forall k | 1 <= k < |NewTransform| ensures Clash(NewTransform[k..], NewTransform) {
      if k == 11 {
        assert NewTransform[k..][5] != NewTransform[5];
      } else if k == 18 {
        assert NewTransform[k..][1] != NewTransform[1];
      } else {
        assert NewTransform[k] != 't';
        assert NewTransform[k..][0] != NewTransform[0];
      }
    }
  }

  /** Moves the Okinawa group by rewriting its transform, but only when both
      the group's attributes and the exact old transform are present;
      otherwise the text is returned as it was, with a warning. */
  function MoveOkinawa(svg: string): (e: Edit)
    ensures !Contains(svg, OkinawaGroup) ==> e == Edit(svg, GroupNotFound)
    ensures Contains(svg, OkinawaGroup) && !Contains(svg, OldTransform) ==>
      e == Edit(svg, TransformNotFound)
    ensures Contains(svg, OkinawaGroup) && Contains(svg, OldTransform) ==>
      && e.notice == OkinawaMoved
      && Contains(e.svg, NewTransform)
      && !Contains(e.svg, OldTransform)
  {
    if !Contains(svg, OkinawaGroup) then Edit(svg, GroupNotFound)
    else if !Contains(svg, OldTransform) then Edit(svg, TransformNotFound)
    else
      ReplacementPresent(svg, OldTransform, NewTransform);
      OkinawaTransformsSeparate();
      NoTargetLeft(svg, OldTransform, NewTransform);
      Edit(ReplaceAll(svg, OldTransform, NewTransform), OkinawaMoved)
  }

  /** The move changes nothing but the transforms: moving the group back
      restores the map exactly, provided it did not already hold the new
      transform. */
  lemma MoveOkinawaReversible(svg: string)
    requires !Contains(svg, NewTransform)
    ensures ReplaceAll(MoveOkinawa(svg).svg, NewTransform, OldTransform) == svg
  {
    OkinawaTransformsSeparate();
    if MoveOkinawa(svg).notice == OkinawaMoved {
      ReplaceRoundTrip(svg, OldTransform, NewTransform);
    }
  }

  /** Moving twice is moving once: after a move no old transform is left. */
  lemma MoveOkinawaIdempotent(svg: string)
    ensures MoveOkinawa(MoveOkinawa(svg).svg).svg == MoveOkinawa(svg).svg
  {
  }

  /** The page: head, newline, map, newline, tail. */
  function Assemble(t: Template, svg: string): (page: string)
    ensures StartsWith(page, t.head + "\n") && EndsWith(page, "\n" + t.tail)
    ensures |page| == |t.head| + 1 + |svg| + 1 + |t.tail|
    ensures page[|t.head| + 1..|page| - |t.tail| - 1] == svg
  {
    var page := t.head + "\n" + svg + "\n" + t.tail;
    assert page == (t.head + "\n") + svg + ("\n" + t.tail);
    page
  }

  /** The whole build on the text read from the map file. It fails exactly
      when the text starts with `<?xml` and has no `?>`. */
  function Build(t: Template, svg: string): (r: Result<string, BuildError>)
    ensures r.Failure? <==> StartsWith(svg, XmlDeclOpen) && !Contains(svg, XmlDeclClose)
    ensures r.Failure? ==> r.error == UnterminatedDeclaration
    ensures r.Success? ==> StartsWith(r.value, t.head + "\n") && EndsWith(r.value, "\n" + t.tail)
    ensures r.Success? ==>
      && StripDeclaration(svg).Success?
      && |t.head| + 1 <= |r.value| - |t.tail| - 1
      && r.value[|t.head| + 1..|r.value| - |t.tail| - 1] == MoveOkinawa(StripDeclaration(svg).value).svg
  {
    var body :- StripDeclaration(svg);
    Success(Assemble(t, MoveOkinawa(body).svg))
  }

  /** A map without declaration, Okinawa group or old transform is wrapped
      byte for byte. */
  lemma BuildKeepsUntouchedMap(t: Template, svg: string)
    requires !StartsWith(svg, XmlDeclOpen)
    requires !Contains(svg, OkinawaGroup) || !Contains(svg, OldTransform)
    ensures Build(t, svg) == Success(t.head + "\n" + svg + "\n" + t.tail)
  {
  }

  /** A map with the Okinawa group and its old transform comes out with the
      group moved: the map part of the page holds the new transform and
      none of the old. */
  lemma BuildMovesOkinawa(t: Template, svg: string)
    requires !StartsWith(svg, XmlDeclOpen)
    requires Contains(svg, OkinawaGroup) && Contains(svg, OldTransform)
    ensures Build(t, svg).Success?
    ensures var page := Build(t, svg).value;
      var map_ := page[|t.head| + 1..|page| - |t.tail| - 1];
      Contains(map_, NewTransform) && !Contains(map_, OldTransform)
  {
  }

  /** A map that opens with an XML declaration is moved too, when the group
      and its old transform follow the declaration's `?>`. */
  lemma BuildMovesOkinawaAfterDeclaration(t: Template, svg: string, i: nat)
    requires StartsWith(svg, XmlDeclOpen) && FirstOccurrence(svg, XmlDeclClose, i)
    requires Contains(svg[i + |XmlDeclClose|..], OkinawaGroup)
    requires Contains(svg[i + |XmlDeclClose|..], OldTransform)
    ensures Build(t, svg).Success?
    ensures var page := Build(t, svg).value;
      var map_ := page[|t.head| + 1..|page| - |t.tail| - 1];
      Contains(map_, NewTransform) && !Contains(map_, OldTransform)
  {
    StrippedKeepsOkinawa(svg, i);
    BuildMovesStripped(t, svg);
  }

  /** Stripping the declaration keeps the marker and the old transform. */
  lemma StrippedKeepsOkinawa(svg: string, i: nat)
    requires StartsWith(svg, XmlDeclOpen) && FirstOccurrence(svg, XmlDeclClose, i)
    requires Contains(svg[i + |XmlDeclClose|..], OkinawaGroup)
    requires Contains(svg[i + |XmlDeclClose|..], OldTransform)
    ensures StripDeclaration(svg).Success?
    ensures Contains(StripDeclaration(svg).value, OkinawaGroup)
    ensures Contains(StripDeclaration(svg).value, OldTransform)
  {
    var after := svg[i + |XmlDeclClose|..];
    assert StripDeclaration(svg) == Success(Trim(PythonWhitespace, after));
    LiteralsTight();
    TrimKeepsTightPattern(PythonWhitespace, after, OkinawaGroup);
    TrimKeepsTightPattern(PythonWhitespace, after, OldTransform);
  }

  /** Once the stripped map holds the marker and the old transform, the
      page's map part is moved. */
  lemma BuildMovesStripped(t: Template, svg: string)
    requires StripDeclaration(svg).Success?
    ensures Build(t, svg).Success?
    ensures var body := StripDeclaration(svg).value;
      var page := Build(t, svg).value;
      var map_ := page[|t.head| + 1..|page| - |t.tail| - 1];
      Contains(body, OkinawaGroup) && Contains(body, OldTransform) ==>
        Contains(map_, NewTransform) && !Contains(map_, OldTransform)
  {
    var body := StripDeclaration(svg).value;
    if Contains(body, OkinawaGroup) && Contains(body, OldTransform) {
      var moved := MoveOkinawa(body).svg;
      assert Contains(moved, NewTransform) && !Contains(moved, OldTransform);
    }
  }

  /** The group marker and the old transform begin and end with
      non-whitespace, so stripping cannot cut into them. */
  lemma LiteralsTight()
    ensures OkinawaGroup != [] && Tight(PythonWhitespace, OkinawaGroup)
    ensures OldTransform != [] && Tight(PythonWhitespace, OldTransform)
  {
    assert OkinawaGroup[0] == OkinawaClass[0] == 'c';
    assert OkinawaGroup[|OkinawaGroup| - 1] == OkinawaCode[|OkinawaCode| - 1] == '"';
    assert OldTransform[0] == 't' && OldTransform[|OldTransform| - 1] == '"';
  }

  /** The script end to end. `input` is the map file's text, or `None` when
      it cannot be read; `writable` says whether writing the page succeeds. */
  function Run(t: Template, input: Option<string>, writable: bool): (o: Outcome)
    ensures o.ExitStatus() == 0 <==>
      input.Some? && Build(t, input.value).Success? && writable
    ensures input.None? ==> o == Aborted(ReadFailed)
    ensures input.Some? && Build(t, input.value).Failure? ==> o == Aborted(UnterminatedDeclaration)
    ensures input.Some? && Build(t, input.value).Success? && !writable ==> o == Aborted(WriteFailed)
    ensures o.Written? ==> input.Some? && Build(t, input.value) == Success(o.page)
    ensures o.Written? ==> StartsWith(o.page, t.head + "\n") && EndsWith(o.page, "\n" + t.tail)
  {
    match input
    case None => Aborted(ReadFailed)
    case Some(svg) =>
      match Build(t, svg)
      case Failure(e) => Aborted(e)
      case Success(page) => if writable then Written(page) else Aborted(WriteFailed)
  }
}
