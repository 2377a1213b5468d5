/**
  The validator for the header and submitters of a GEDCOM document, with
  automatic repair switched off: each rule unit inspects one kind of object
  and reports its defects as ERROR findings, and the root validator clears
  its findings and runs every rule unit again on each call of `validate()`.

  Every rule that navigates into an optional child short-circuits: when the
  child is absent, that absence is reported once and no check that would
  look inside it runs.
*/
module Validator {
  import opened Wrappers
  import opened Findings
  import opened GedcomModel

  /**
    The names of the supported encodings. The full list belongs to the
    encoding catalogue, which is outside this model; all that is fixed here
    is that it names ASCII and the default of a new character set, and does
    not name "FRYINGPAN".
  */
  type SupportedEncodings = e: set<string>
    | AsciiCharacterSetName in e && DefaultCharacterSetName in e && "FRYINGPAN" !in e
    witness {AsciiCharacterSetName, DefaultCharacterSetName}

  // ---------------------------------------------------------------------
  // What a valid document is, stated without reference to the rule units.

  /** A present character set with custom tags, naming a supported encoding whose own tags are present. */
  predicate CharacterSetValid(cs: Option<CharacterSet>, enc: SupportedEncodings) {
    && cs.Some?
    && cs.value.customTags.Some?
    && cs.value.characterSetName.Some?
    && cs.value.characterSetName.value.value in enc
    && cs.value.characterSetName.value.customTags.Some?
  }

  /** A submitter whose name, if it has one, has its custom-tag collection. */
  predicate SubmitterValid(s: Submitter) {
    s.name.Some? ==> s.name.value.customTags.Some?
  }

  /**
    A document the rules accept: a valid character set, copyright data
    present (possibly empty), a header submitter that is one of the
    document's submitters, and every submitter valid.
  */
  predicate DocumentValid(g: Gedcom, enc: SupportedEncodings) {
    && CharacterSetValid(g.header.characterSet, enc)
    && g.header.copyrightData.Some?
    && g.header.submitter.Some?
    && HasSubmitter(g.submitters, g.header.submitter.value)
    && forall s :: s in g.submitters ==> SubmitterValid(s)
  }

  // ---------------------------------------------------------------------
  // Rule units.

  /** The problems the character-set checks can report. */
  predicate IsCharacterSetProblem(p: Problem) {
    p.CharacterSetNotSpecified? || p.CustomTagsNull? || p.CharacterSetNameNotDefined? || p.CharacterSetNotSupported?
  }

  /** Shared rule for every element with custom tags: the collection must exist. */
  function CustomTagsRule(tags: Option<seq<CustomTag>>, subject: Subject): (r: seq<Finding>)
    ensures r == [] <==> tags.Some?
    ensures forall f :: f in r ==> f == Finding(Error, CustomTagsNull, subject)
    ensures tags.None? ==> r == [Finding(Error, CustomTagsNull, subject)]
  {
    if tags.None? then [Finding(Error, CustomTagsNull, subject)] else []
  }

  /** Shared rule for a string with custom tags. */
  function StringRule(s: StringWithCustomTags, subject: Subject): (r: seq<Finding>)
    ensures r == [] <==> s.customTags.Some?
    ensures s.customTags.None? ==> r == [Finding(Error, CustomTagsNull, subject)]
  {
    CustomTagsRule(s.customTags, subject)
  }

  /**
    The character-set checks of the header: present; its custom tags present;
    its name defined; the name a supported encoding; the name's own custom
    tags present. An absent character set yields exactly one finding, and an
    undefined name skips the checks on the name.
  */
  function CharacterSetRule(cs: Option<CharacterSet>, enc: SupportedEncodings): (r: seq<Finding>)
    ensures cs.None? ==> r == [Finding(Error, CharacterSetNotSpecified, HeaderItem)]
    ensures r == [] <==> CharacterSetValid(cs, enc)
    ensures forall f :: f in r ==> f.severity == Error && IsCharacterSetProblem(f.problem)
  {
    match cs
    case None => [Finding(Error, CharacterSetNotSpecified, HeaderItem)]
    case Some(c) =>
      CustomTagsRule(c.customTags, CharacterSetItem) +
      match c.characterSetName
      case None => [Finding(Error, CharacterSetNameNotDefined, CharacterSetItem)]
      case Some(name) =>
        (if name.value in enc then [] else [Finding(Error, CharacterSetNotSupported, CharacterSetNameItem)])
        + StringRule(name, CharacterSetNameItem)
  }

  /** Copyright data must exist; an empty list is fine. */
  function CopyrightRule(copyright: Option<seq<string>>): (r: seq<Finding>)
    ensures r == [] <==> copyright.Some?
    ensures forall f :: f in r ==> f == Finding(Error, CopyrightDataNull, HeaderItem)
  {
    if copyright.None? then [Finding(Error, CopyrightDataNull, HeaderItem)] else []
  }

  /**
    The header must name a submitter, and that submitter must be one of the
    document's submitters; an unnamed submitter skips the lookup.
  */
  function SubmitterReferenceRule(ref: Option<string>, subs: seq<Submitter>): (r: seq<Finding>)
    ensures r == [] <==> ref.Some? && HasSubmitter(subs, ref.value)
    ensures |r| <= 1
  {
    match ref
    case None => [Finding(Error, SubmitterNotSpecifiedInHeader, HeaderItem)]
    case Some(k) => if HasSubmitter(subs, k) then [] else [Finding(Error, SubmitterNotFound, HeaderItem)]
  }

  /** The document must have at least one submitter. */
  function SubmittersPresentRule(subs: seq<Submitter>): (r: seq<Finding>)
    ensures r == [] <==> |subs| > 0
    ensures forall f :: f in r ==> f == Finding(Error, NoSubmitters, DocumentItem)
  {
    if |subs| == 0 then [Finding(Error, NoSubmitters, DocumentItem)] else []
  }

  /** The header checks after the character set: copyright data and submitters. */
  function CopyrightAndSubmitterRules(g: Gedcom): (r: seq<Finding>)
    ensures forall f :: f in r ==> f.severity == Error && (f.subject == HeaderItem || f.subject == DocumentItem)
  {
    CopyrightRule(g.header.copyrightData)
    + SubmitterReferenceRule(g.header.submitter, g.submitters)
    + SubmittersPresentRule(g.submitters)
  }

  /** The header rule unit: character set, copyright data, submitter. */
  function HeaderRule(g: Gedcom, enc: SupportedEncodings): (r: seq<Finding>)
    ensures forall f :: f in r ==> f.severity == Error
    ensures r == [] <==>
      && CharacterSetValid(g.header.characterSet, enc)
      && g.header.copyrightData.Some?
      && g.header.submitter.Some? && HasSubmitter(g.submitters, g.header.submitter.value)
      && |g.submitters| > 0
  {
    CharacterSetRule(g.header.characterSet, enc) + CopyrightAndSubmitterRules(g)
  }

  /** The submitter rule unit: a present name is checked by the shared string rule. */
  function SubmitterRule(s: Submitter): (r: seq<Finding>)
    ensures r == [] <==> SubmitterValid(s)
    ensures forall f :: f in r ==> f == Finding(Error, CustomTagsNull, SubmitterNameItem(s.xref))
  {
    match s.name
    case None => []
    case Some(n) => StringRule(n, SubmitterNameItem(s.xref))
  }

  /** The submitter rule unit over every submitter of the document, in order. */
  function SubmittersRule(subs: seq<Submitter>): (r: seq<Finding>)
    ensures r == [] <==> forall s :: s in subs ==> SubmitterValid(s)
    ensures forall f :: f in r ==> f.problem == CustomTagsNull && f.severity == Error && f.subject.SubmitterNameItem?
    ensures forall k :: Count(r, CustomTagsNull, SubmitterNameItem(k)) > 0
                    <==> exists s :: s in subs && s.xref == k && !SubmitterValid(s)
  {
    if subs == [] then []
    else
      var head := SubmitterRule(subs[0]);
      var rest := SubmittersRule(subs[1..]);
      assert forall s :: s in subs <==> s == subs[0] || s in subs[1..] by {
        assert subs == [subs[0]] + subs[1..];
      }
      forall k ensures Count(head + rest, CustomTagsNull, SubmitterNameItem(k))
                    == Count(head, CustomTagsNull, SubmitterNameItem(k))
                     + Count(rest, CustomTagsNull, SubmitterNameItem(k)) {
        CountAppend(head, rest, CustomTagsNull, SubmitterNameItem(k));
      }
      forall k ensures Count(head, CustomTagsNull, SubmitterNameItem(k)) > 0
                   <==> subs[0].xref == k && !SubmitterValid(subs[0]) {
        CountPositive(head, CustomTagsNull, SubmitterNameItem(k));
        if head != [] {
          assert head[0] in head;
        }
      }
      head + rest
  }

  /** Every finding a run produces for document `g`, in the order the rules run. */
  function DocumentFindings(g: Gedcom, enc: SupportedEncodings): (r: seq<Finding>)
    ensures r == [] <==> DocumentValid(g, enc)
    ensures forall f :: f in r ==> f.severity == Error
  {
    HeaderRule(g, enc) + SubmittersRule(g.submitters)
  }

  // ---------------------------------------------------------------------
  // The root validator.

  /** The root validator: the document it inspects and the findings of its last run. */
  datatype RootValidator = RootValidator(gedcom: Gedcom, findings: seq<Finding>)

  /**
    `validate()`: discards the previous findings and rebuilds them from the
    current document alone. The document is not changed; the run reports
    nothing exactly when the document is valid, and every finding is an
    ERROR because repair is off.
  */
  function Validate(v: RootValidator, enc: SupportedEncodings): (r: RootValidator)
    ensures r.gedcom == v.gedcom
    ensures r.findings == [] <==> DocumentValid(v.gedcom, enc)
    ensures forall f :: f in r.findings ==> f.severity == Error
  {
    RootValidator(v.gedcom, DocumentFindings(v.gedcom, enc))
  }
}
