/**
  Whole-run properties of `validate()` and the header-validator examples of
  the source: a document built the way the examples build it, then changed
  one field at a time, each run starting from whatever findings the
  previous run left behind.
*/
module ValidatorExamples {
  import opened Wrappers
  import opened Findings
  import opened GedcomModel
  import opened Validator
  import opened ValidatorProperties

  /** A run's findings are rebuilt from the document: earlier findings leave no trace. */
  lemma ValidateForgetsEarlierFindings(v: RootValidator, w: RootValidator, enc: SupportedEncodings)
    requires v.gedcom == w.gedcom
    ensures Validate(v, enc) == Validate(w, enc)
  {
  }

  /** Running `validate()` again on an unchanged document reproduces the same findings. */
  lemma ValidateIdempotent(v: RootValidator, enc: SupportedEncodings)
    ensures Validate(Validate(v, enc), enc) == Validate(v, enc)
  {
  }

  /**
    An absent character set is reported by exactly one ERROR mentioning the
    character set, and nothing inside the missing character set is reported.
  */
  lemma AbsentCharacterSetShortCircuits(g: Gedcom, enc: SupportedEncodings)
    requires g.header.characterSet.None?
    ensures Count(DocumentFindings(g, enc), CharacterSetNotSpecified, HeaderItem) == 1
    ensures Count(DocumentFindings(g, enc), CustomTagsNull, CharacterSetItem) == 0
    ensures Count(DocumentFindings(g, enc), CharacterSetNameNotDefined, CharacterSetItem) == 0
    ensures Count(DocumentFindings(g, enc), CharacterSetNotSupported, CharacterSetNameItem) == 0
    ensures Count(DocumentFindings(g, enc), CustomTagsNull, CharacterSetNameItem) == 0
    ensures Has(DocumentFindings(g, enc), Error, ["character set"])
  {
    DocumentCounts(g, enc);
    MessageKeywords();
    assert "character set" in ["character set", "not specified"];
    ReportedHas(g, enc, CharacterSetNotSpecified, HeaderItem, ["character set"]);
  }

  /** A counted problem makes `has(ERROR, keywords)` true for any keywords its message contains. */
  lemma ReportedHas(g: Gedcom, enc: SupportedEncodings, p: Problem, subj: Subject, keywords: seq<string>)
    requires Count(DocumentFindings(g, enc), p, subj) > 0
    requires ContainsAll(Message(p), keywords)
    ensures Has(DocumentFindings(g, enc), Error, keywords)
  {
    CountPositive(DocumentFindings(g, enc), p, subj);
    var f :| f in DocumentFindings(g, enc) && f.problem == p && f.subject == subj;
    assert f.MessageText() == Message(p);
  }

  const SubmitterXref: string := "@SUBM0001@"

  /**
    The examples' starting point: a new document, plus a submitter
    `@SUBM0001@` named "test" put into the submitters and made the header's
    submitter.
  */
  function ExampleDocument(): (g: Gedcom)
    ensures g.header.characterSet == Some(NewCharacterSet())
    ensures g.header.copyrightData == Some([])
    ensures g.header.submitter == Some(SubmitterXref)
    ensures HasSubmitter(g.submitters, SubmitterXref)
    ensures forall s :: s in g.submitters ==> SubmitterValid(s)
  {
    var g := NewGedcom();
    var s := Submitter(SubmitterXref, Some(NewString("test")));
    g.(submitters := Put(g.submitters, s), header := g.header.(submitter := Some(s.xref)))
  }

  function WithCharacterSet(g: Gedcom, cs: Option<CharacterSet>): Gedcom {
    g.(header := g.header.(characterSet := cs))
  }

  function WithCopyright(g: Gedcom, c: Option<seq<string>>): Gedcom {
    g.(header := g.header.(copyrightData := c))
  }

  /** The example document, with a new character set and an empty copyright list, is valid. */
  lemma ExampleDocumentValid(enc: SupportedEncodings)
    ensures DocumentValid(ExampleDocument(), enc)
  {
  }

  /** Without a character set, an ERROR mentions the character set. */
  lemma CharacterSetNullReported(prev: seq<Finding>, enc: SupportedEncodings)
    ensures Has(Validate(RootValidator(WithCharacterSet(ExampleDocument(), None), prev), enc).findings, Error, ["character set"])
  {
    var g := WithCharacterSet(ExampleDocument(), None);
    DocumentCounts(g, enc);
    MessageKeywords();
    assert "character set" in ["character set", "not specified"];
    ReportedHas(g, enc, CharacterSetNotSpecified, HeaderItem, ["character set"]);
  }

  /** A new character set names a supported encoding and has its custom tags: no findings, whatever the previous run found. */
  lemma NewCharacterSetNoIssues(prev: seq<Finding>, enc: SupportedEncodings)
    ensures Validate(RootValidator(WithCharacterSet(ExampleDocument(), Some(NewCharacterSet())), prev), enc).findings == []
  {
    assert DocumentValid(WithCharacterSet(ExampleDocument(), Some(NewCharacterSet())), enc);
  }

  /** A character set without a name is reported as not defined. */
  lemma CharacterSetNameNullReported(prev: seq<Finding>, enc: SupportedEncodings)
    ensures Has(Validate(RootValidator(WithCharacterSet(ExampleDocument(), Some(NewCharacterSet().(characterSetName := None))), prev), enc).findings, Error, ["character set", "name", "not", "defined"])
  {
    var g := WithCharacterSet(ExampleDocument(), Some(NewCharacterSet().(characterSetName := None)));
    DocumentCounts(g, enc);
    MessageKeywords();
    assert "character set" in ["character set", "name", "not", "defined"];
    assert "name" in ["character set", "name", "not", "defined"];
    assert "not" in ["character set", "name", "not", "defined"];
    assert "defined" in ["character set", "name", "not", "defined"];
    ReportedHas(g, enc, CharacterSetNameNotDefined, CharacterSetItem, ["character set", "name", "not", "defined"]);
  }

  /** A name that is not a supported encoding is reported as not supported. */
  lemma UnsupportedEncodingReported(prev: seq<Finding>, enc: SupportedEncodings)
    ensures Has(Validate(RootValidator(WithCharacterSet(ExampleDocument(), Some(NewCharacterSet().(characterSetName := Some(NewString("FRYINGPAN"))))), prev), enc).findings, Error, ["character set", "not", "supported"])
  {
    var g := WithCharacterSet(ExampleDocument(), Some(NewCharacterSet().(characterSetName := Some(NewString("FRYINGPAN")))));
    DocumentCounts(g, enc);
    MessageKeywords();
    assert "character set" in ["character set", "not", "supported"];
    assert "not" in ["character set", "not", "supported"];
    assert "supported" in ["character set", "not", "supported"];
    ReportedHas(g, enc, CharacterSetNotSupported, CharacterSetNameItem, ["character set", "not", "supported"]);
  }

  /** Naming the ASCII encoding leaves nothing to report. */
  lemma AsciiEncodingNoIssues(prev: seq<Finding>, enc: SupportedEncodings)
    ensures Validate(RootValidator(WithCharacterSet(ExampleDocument(), Some(NewCharacterSet().(characterSetName := Some(NewString(AsciiCharacterSetName))))), prev), enc).findings == []
  {
    assert DocumentValid(WithCharacterSet(ExampleDocument(), Some(NewCharacterSet().(characterSetName := Some(NewString(AsciiCharacterSetName))))), enc);
  }

  /** A character set whose custom-tag collection is unset is reported even though its name is valid. */
  lemma CharacterSetTagsNullReported(prev: seq<Finding>, enc: SupportedEncodings)
    ensures Has(Validate(RootValidator(WithCharacterSet(ExampleDocument(), Some(CharacterSet(Some(NewString(AsciiCharacterSetName)), None))), prev), enc).findings, Error, ["custom tag", "is null"])
  {
    var g := WithCharacterSet(ExampleDocument(), Some(CharacterSet(Some(NewString(AsciiCharacterSetName)), None)));
    DocumentCounts(g, enc);
    MessageKeywords();
    assert "custom tag" in ["custom tag", "is null"];
    assert "is null" in ["custom tag", "is null"];
    ReportedHas(g, enc, CustomTagsNull, CharacterSetItem, ["custom tag", "is null"]);
  }

  /** Absent copyright data is reported. */
  lemma CopyrightNullReported(prev: seq<Finding>, enc: SupportedEncodings)
    ensures Has(Validate(RootValidator(WithCopyright(ExampleDocument(), None), prev), enc).findings, Error, ["copyright"])
  {
    var g := WithCopyright(ExampleDocument(), None);
    DocumentCounts(g, enc);
    MessageKeywords();
    assert "copyright" in ["copyright"];
    ReportedHas(g, enc, CopyrightDataNull, HeaderItem, ["copyright"]);
  }

  /** An empty copyright list is valid. */
  lemma EmptyCopyrightNoIssues(prev: seq<Finding>, enc: SupportedEncodings)
    ensures Validate(RootValidator(WithCopyright(ExampleDocument(), Some([])), prev), enc).findings == []
  {
    assert DocumentValid(WithCopyright(ExampleDocument(), Some([])), enc);
  }

  /** A new document, with no submitters, is reported as having none specified. */
  lemma NoSubmittersReported(prev: seq<Finding>, enc: SupportedEncodings)
    ensures Has(Validate(RootValidator(NewGedcom(), prev), enc).findings, Error, ["submitter", "not specified"])
  {
    var g := NewGedcom();
    DocumentCounts(g, enc);
    MessageKeywords();
    assert "submitter" in ["submitter", "not specified"];
    assert "not specified" in ["submitter", "not specified"];
    ReportedHas(g, enc, NoSubmitters, DocumentItem, ["submitter", "not specified"]);
  }

  /** Once a submitter is put into the document and made the header's submitter, nothing is reported. */
  lemma AddedSubmitterNoIssues(prev: seq<Finding>, enc: SupportedEncodings)
    ensures Validate(RootValidator(ExampleDocument(), prev), enc).findings == []
  {
    assert DocumentValid(ExampleDocument(), enc);
  }
}
