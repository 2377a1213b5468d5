/**
  What the header validation promises about a whole run: how often each
  defect is reported (once when present, never when absent or when its
  parent is missing), that a run depends only on the current document, and
  the outcomes the source's header-validator examples expect.
*/
module ValidatorProperties {
  import opened Wrappers
  import opened Findings
  import opened GedcomModel
  import opened Validator

  /**
    Each character-set defect is reported exactly once when it is present,
    and checks below an absent character set or an undefined name report
    nothing.
  */
  lemma CharacterSetCounts(cs: Option<CharacterSet>, enc: SupportedEncodings)
    ensures Count(CharacterSetRule(cs, enc), CharacterSetNotSpecified, HeaderItem)
         == if cs.None? then 1 else 0
    ensures Count(CharacterSetRule(cs, enc), CustomTagsNull, CharacterSetItem)
         == if cs.Some? && cs.value.customTags.None? then 1 else 0
    ensures Count(CharacterSetRule(cs, enc), CharacterSetNameNotDefined, CharacterSetItem)
         == if cs.Some? && cs.value.characterSetName.None? then 1 else 0
    ensures Count(CharacterSetRule(cs, enc), CharacterSetNotSupported, CharacterSetNameItem)
         == if cs.Some? && cs.value.characterSetName.Some? && cs.value.characterSetName.value.value !in enc
            then 1 else 0
    ensures Count(CharacterSetRule(cs, enc), CustomTagsNull, CharacterSetNameItem)
         == if cs.Some? && cs.value.characterSetName.Some? && cs.value.characterSetName.value.customTags.None?
            then 1 else 0
  {
    CountSingle(Finding(Error, CharacterSetNotSpecified, HeaderItem));
    CountSingle(Finding(Error, CustomTagsNull, CharacterSetItem));
    CountSingle(Finding(Error, CharacterSetNameNotDefined, CharacterSetItem));
    CountSingle(Finding(Error, CharacterSetNotSupported, CharacterSetNameItem));
    CountSingle(Finding(Error, CustomTagsNull, CharacterSetNameItem));
    match cs
    case None =>
    case Some(c) =>
      var tags := CustomTagsRule(c.customTags, CharacterSetItem);
      match c.characterSetName
      case None =>
        CountAppendAll(tags, [Finding(Error, CharacterSetNameNotDefined, CharacterSetItem)]);
      case Some(name) =>
        var unsupported := if name.value in enc then [] else [Finding(Error, CharacterSetNotSupported, CharacterSetNameItem)];
        var nameTags := StringRule(name, CharacterSetNameItem);
        assert CharacterSetRule(cs, enc) == tags + (unsupported + nameTags);
        CountAppendAll(unsupported, nameTags);
        CountAppendAll(tags, unsupported + nameTags);
  }

  /** The header rules after the character set each report their own defect once, and nothing about the character set. */
  lemma CopyrightAndSubmitterCounts(g: Gedcom)
    ensures Count(CopyrightAndSubmitterRules(g), CopyrightDataNull, HeaderItem)
         == if g.header.copyrightData.None? then 1 else 0
    ensures Count(CopyrightAndSubmitterRules(g), SubmitterNotSpecifiedInHeader, HeaderItem)
         == if g.header.submitter.None? then 1 else 0
    ensures Count(CopyrightAndSubmitterRules(g), SubmitterNotFound, HeaderItem)
         == if g.header.submitter.Some? && !HasSubmitter(g.submitters, g.header.submitter.value) then 1 else 0
    ensures Count(CopyrightAndSubmitterRules(g), NoSubmitters, DocumentItem)
         == if |g.submitters| == 0 then 1 else 0
    ensures Count(CopyrightAndSubmitterRules(g), CharacterSetNotSpecified, HeaderItem)
         == 0
    ensures Count(CopyrightAndSubmitterRules(g), CustomTagsNull, CharacterSetItem)
         == 0
    ensures Count(CopyrightAndSubmitterRules(g), CharacterSetNameNotDefined, CharacterSetItem)
         == 0
    ensures Count(CopyrightAndSubmitterRules(g), CharacterSetNotSupported, CharacterSetNameItem)
         == 0
    ensures Count(CopyrightAndSubmitterRules(g), CustomTagsNull, CharacterSetNameItem)
         == 0
  {
    var cr := CopyrightRule(g.header.copyrightData);
    var sr := SubmitterReferenceRule(g.header.submitter, g.submitters);
    var np := SubmittersPresentRule(g.submitters);
    CountAppendAll(cr, sr);
    CountAppendAll(cr + sr, np);
    CountSingle(Finding(Error, CopyrightDataNull, HeaderItem));
    CountSingle(Finding(Error, SubmitterNotSpecifiedInHeader, HeaderItem));
    CountSingle(Finding(Error, SubmitterNotFound, HeaderItem));
    CountSingle(Finding(Error, NoSubmitters, DocumentItem));
  }

  /**
    The header rule unit reports each of its defects exactly once when it is
    present and not at all otherwise; below an absent character set or an
    undefined name it reports nothing.
  */
  lemma HeaderCounts(g: Gedcom, enc: SupportedEncodings)
    ensures Count(HeaderRule(g, enc), CharacterSetNotSpecified, HeaderItem)
         == if g.header.characterSet.None? then 1 else 0
    ensures Count(HeaderRule(g, enc), CustomTagsNull, CharacterSetItem)
         == if g.header.characterSet.Some? && g.header.characterSet.value.customTags.None? then 1 else 0
    ensures Count(HeaderRule(g, enc), CharacterSetNameNotDefined, CharacterSetItem)
         == if g.header.characterSet.Some? && g.header.characterSet.value.characterSetName.None? then 1 else 0
    ensures Count(HeaderRule(g, enc), CharacterSetNotSupported, CharacterSetNameItem)
         == if && g.header.characterSet.Some?
               && g.header.characterSet.value.characterSetName.Some?
               && g.header.characterSet.value.characterSetName.value.value !in enc
            then 1 else 0
    ensures Count(HeaderRule(g, enc), CustomTagsNull, CharacterSetNameItem)
         == if && g.header.characterSet.Some?
               && g.header.characterSet.value.characterSetName.Some?
               && g.header.characterSet.value.characterSetName.value.customTags.None?
            then 1 else 0
    ensures Count(HeaderRule(g, enc), CopyrightDataNull, HeaderItem)
         == if g.header.copyrightData.None? then 1 else 0
    ensures Count(HeaderRule(g, enc), SubmitterNotSpecifiedInHeader, HeaderItem)
         == if g.header.submitter.None? then 1 else 0
    ensures Count(HeaderRule(g, enc), SubmitterNotFound, HeaderItem)
         == if g.header.submitter.Some? && !HasSubmitter(g.submitters, g.header.submitter.value) then 1 else 0
    ensures Count(HeaderRule(g, enc), NoSubmitters, DocumentItem)
         == if |g.submitters| == 0 then 1 else 0
  {
    HeaderCharacterSetCounts(g, enc);
    HeaderOtherCounts(g, enc);
  }

  lemma HeaderCharacterSetCounts(g: Gedcom, enc: SupportedEncodings)
    ensures Count(HeaderRule(g, enc), CharacterSetNotSpecified, HeaderItem)
         == if g.header.characterSet.None? then 1 else 0
    ensures Count(HeaderRule(g, enc), CustomTagsNull, CharacterSetItem)
         == if g.header.characterSet.Some? && g.header.characterSet.value.customTags.None? then 1 else 0
    ensures Count(HeaderRule(g, enc), CharacterSetNameNotDefined, CharacterSetItem)
         == if g.header.characterSet.Some? && g.header.characterSet.value.characterSetName.None? then 1 else 0
    ensures Count(HeaderRule(g, enc), CharacterSetNotSupported, CharacterSetNameItem)
         == if && g.header.characterSet.Some?
               && g.header.characterSet.value.characterSetName.Some?
               && g.header.characterSet.value.characterSetName.value.value !in enc
            then 1 else 0
    ensures Count(HeaderRule(g, enc), CustomTagsNull, CharacterSetNameItem)
         == if && g.header.characterSet.Some?
               && g.header.characterSet.value.characterSetName.Some?
               && g.header.characterSet.value.characterSetName.value.customTags.None?
            then 1 else 0
  {
    var cs := CharacterSetRule(g.header.characterSet, enc);
    var rest := CopyrightAndSubmitterRules(g);
    CharacterSetCounts(g.header.characterSet, enc);
    CopyrightAndSubmitterCounts(g);
    CountAppend(cs, rest, CharacterSetNotSpecified, HeaderItem);
    CountAppend(cs, rest, CustomTagsNull, CharacterSetItem);
    CountAppend(cs, rest, CharacterSetNameNotDefined, CharacterSetItem);
    CountAppend(cs, rest, CharacterSetNotSupported, CharacterSetNameItem);
    CountAppend(cs, rest, CustomTagsNull, CharacterSetNameItem);
  }

  lemma HeaderOtherCounts(g: Gedcom, enc: SupportedEncodings)
    ensures Count(HeaderRule(g, enc), CopyrightDataNull, HeaderItem)
         == if g.header.copyrightData.None? then 1 else 0
    ensures Count(HeaderRule(g, enc), SubmitterNotSpecifiedInHeader, HeaderItem)
         == if g.header.submitter.None? then 1 else 0
    ensures Count(HeaderRule(g, enc), SubmitterNotFound, HeaderItem)
         == if g.header.submitter.Some? && !HasSubmitter(g.submitters, g.header.submitter.value) then 1 else 0
    ensures Count(HeaderRule(g, enc), NoSubmitters, DocumentItem)
         == if |g.submitters| == 0 then 1 else 0
  {
    var cs := CharacterSetRule(g.header.characterSet, enc);
    var rest := CopyrightAndSubmitterRules(g);
    CopyrightAndSubmitterCounts(g);
    CountAppend(cs, rest, CopyrightDataNull, HeaderItem);
    CountAbsent(cs, CopyrightDataNull, HeaderItem);
    CountAppend(cs, rest, SubmitterNotSpecifiedInHeader, HeaderItem);
    CountAbsent(cs, SubmitterNotSpecifiedInHeader, HeaderItem);
    CountAppend(cs, rest, SubmitterNotFound, HeaderItem);
    CountAbsent(cs, SubmitterNotFound, HeaderItem);
    CountAppend(cs, rest, NoSubmitters, DocumentItem);
    CountAbsent(cs, NoSubmitters, DocumentItem);
  }

  /** The header rule unit reports nothing about submitters' names. */
  lemma HeaderSubjects(g: Gedcom, enc: SupportedEncodings, k: string)
    ensures Count(HeaderRule(g, enc), CustomTagsNull, SubmitterNameItem(k)) == 0
  {
    CountAbsent(HeaderRule(g, enc), CustomTagsNull, SubmitterNameItem(k));
  }

  /**
    Over a whole run, every header defect is reported exactly once when
    present and not at all otherwise, and a submitter's name is reported
    exactly when that submitter's name lacks its custom tags.
  */
  lemma DocumentCounts(g: Gedcom, enc: SupportedEncodings)
    ensures Count(DocumentFindings(g, enc), CharacterSetNotSpecified, HeaderItem)
         == if g.header.characterSet.None? then 1 else 0
    ensures Count(DocumentFindings(g, enc), CustomTagsNull, CharacterSetItem)
         == if g.header.characterSet.Some? && g.header.characterSet.value.customTags.None? then 1 else 0
    ensures Count(DocumentFindings(g, enc), CharacterSetNameNotDefined, CharacterSetItem)
         == if g.header.characterSet.Some? && g.header.characterSet.value.characterSetName.None? then 1 else 0
    ensures Count(DocumentFindings(g, enc), CharacterSetNotSupported, CharacterSetNameItem)
         == if && g.header.characterSet.Some?
               && g.header.characterSet.value.characterSetName.Some?
               && g.header.characterSet.value.characterSetName.value.value !in enc
            then 1 else 0
    ensures Count(DocumentFindings(g, enc), CustomTagsNull, CharacterSetNameItem)
         == if && g.header.characterSet.Some?
               && g.header.characterSet.value.characterSetName.Some?
               && g.header.characterSet.value.characterSetName.value.customTags.None?
            then 1 else 0
    ensures Count(DocumentFindings(g, enc), CopyrightDataNull, HeaderItem)
         == if g.header.copyrightData.None? then 1 else 0
    ensures Count(DocumentFindings(g, enc), SubmitterNotSpecifiedInHeader, HeaderItem)
         == if g.header.submitter.None? then 1 else 0
    ensures Count(DocumentFindings(g, enc), SubmitterNotFound, HeaderItem)
         == if g.header.submitter.Some? && !HasSubmitter(g.submitters, g.header.submitter.value) then 1 else 0
    ensures Count(DocumentFindings(g, enc), NoSubmitters, DocumentItem)
         == if |g.submitters| == 0 then 1 else 0
    ensures forall k :: Count(DocumentFindings(g, enc), CustomTagsNull, SubmitterNameItem(k)) > 0
                    <==> exists s :: s in g.submitters && s.xref == k && !SubmitterValid(s)
  {
    HeaderCounts(g, enc);
    HeaderCountsCarry(g, enc, CharacterSetNotSpecified, HeaderItem);
    HeaderCountsCarry(g, enc, CustomTagsNull, CharacterSetItem);
    HeaderCountsCarry(g, enc, CharacterSetNameNotDefined, CharacterSetItem);
    HeaderCountsCarry(g, enc, CharacterSetNotSupported, CharacterSetNameItem);
    HeaderCountsCarry(g, enc, CustomTagsNull, CharacterSetNameItem);
    HeaderCountsCarry(g, enc, CopyrightDataNull, HeaderItem);
    HeaderCountsCarry(g, enc, SubmitterNotSpecifiedInHeader, HeaderItem);
    HeaderCountsCarry(g, enc, SubmitterNotFound, HeaderItem);
    HeaderCountsCarry(g, enc, NoSubmitters, DocumentItem);
    DocumentSubmitterCounts(g, enc);
  }

  /** A run reports a submitter's name exactly when that submitter is invalid. */
  lemma DocumentSubmitterCounts(g: Gedcom, enc: SupportedEncodings)
    ensures forall k :: Count(DocumentFindings(g, enc), CustomTagsNull, SubmitterNameItem(k)) > 0
                    <==> exists s :: s in g.submitters && s.xref == k && !SubmitterValid(s)
  {
    var hr := HeaderRule(g, enc);
    var subs := SubmittersRule(g.submitters);
    forall k ensures Count(DocumentFindings(g, enc), CustomTagsNull, SubmitterNameItem(k))
                  == Count(subs, CustomTagsNull, SubmitterNameItem(k)) {
      CountAppend(hr, subs, CustomTagsNull, SubmitterNameItem(k));
      HeaderSubjects(g, enc, k);
    }
  }

  /** The submitter rule unit reports nothing about the header, so a run counts header problems as the header rule does. */
  lemma HeaderCountsCarry(g: Gedcom, enc: SupportedEncodings, p: Problem, subj: Subject)
    requires !subj.SubmitterNameItem?
    ensures Count(DocumentFindings(g, enc), p, subj) == Count(HeaderRule(g, enc), p, subj)
  {
    var subs := SubmittersRule(g.submitters);
    CountAppend(HeaderRule(g, enc), subs, p, subj);
    CountAbsent(subs, p, subj);
  }

  // ---------------------------------------------------------------------
  // What newly constructed objects promise to the validator.

  /** A new string with custom tags passes the shared string rule, whatever its value. */
  lemma NewStringValid(v: string, subject: Subject)
    ensures StringRule(NewString(v), subject) == []
  {
  }

  /**
    A new character set is valid under every encoding catalogue: its default
    name is supported and both custom-tag collections exist.
  */
  lemma NewCharacterSetValid(enc: SupportedEncodings)
    ensures CharacterSetValid(Some(NewCharacterSet()), enc)
    ensures CharacterSetRule(Some(NewCharacterSet()), enc) == []
  {
  }

  /**
    A new header is faulted only for naming no submitter, plus the missing
    submitter records when the document has none.
  */
  lemma NewHeaderFindings(subs: seq<Submitter>, enc: SupportedEncodings)
    ensures HeaderRule(Gedcom(NewHeader(), subs), enc)
         == [Finding(Error, SubmitterNotSpecifiedInHeader, HeaderItem)]
          + (if subs == [] then [Finding(Error, NoSubmitters, DocumentItem)] else [])
  {
    NewCharacterSetValid(enc);
  }

  /** A new document is faulted exactly for its missing submitters, nothing else. */
  lemma NewGedcomFindings(enc: SupportedEncodings)
    ensures DocumentFindings(NewGedcom(), enc)
         == [Finding(Error, SubmitterNotSpecifiedInHeader, HeaderItem), Finding(Error, NoSubmitters, DocumentItem)]
  {
    NewHeaderFindings([], enc);
  }
}
