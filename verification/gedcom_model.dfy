/**
  The part of the GEDCOM object model the header rules look at: a document
  with a header and its submitters, the header's character set, copyright
  lines and submitter reference, and the string-with-custom-tags wrapper.
  A field the source may leave `null` is an `Option`; a collection that may
  be empty but must exist is an `Option` of a sequence, so that "absent" and
  "empty" stay two different states.
*/
module GedcomModel {
  import opened Wrappers

  /** A non-standard tag attached to an element (`StringTree` in the source). */
  datatype CustomTag = CustomTag(tag: string, value: string)

  /** A text value with its collection of custom tags, which may be unset. */
  datatype StringWithCustomTags = StringWithCustomTags(value: string, customTags: Option<seq<CustomTag>>)

  /** `new StringWithCustomTags(v)`: the custom-tag collection starts out present and empty. */
  function NewString(v: string): (s: StringWithCustomTags)
    ensures s.value == v && s.customTags == Some([])
  {
    StringWithCustomTags(v, Some([]))
  }

  /** The encoding a new character set names. */
  const DefaultCharacterSetName: string := "ANSEL"

  /** The name of the 7-bit ASCII encoding. */
  const AsciiCharacterSetName: string := "ASCII"

  /** The character set named in the header, with its own custom tags. */
  datatype CharacterSet = CharacterSet(
    characterSetName: Option<StringWithCustomTags>,
    customTags: Option<seq<CustomTag>>)

  /** `new CharacterSet()`: names the default encoding and has an empty custom-tag collection. */
  function NewCharacterSet(): (c: CharacterSet)
    ensures c.characterSetName == Some(NewString(DefaultCharacterSetName))
    ensures c.customTags == Some([])
  {
    CharacterSet(Some(NewString(DefaultCharacterSetName)), Some([]))
  }

  /** A submitter record, keyed by its cross-reference id. */
  datatype Submitter = Submitter(xref: string, name: Option<StringWithCustomTags>)

  /**
    The header: its character set, its copyright lines (absent or a possibly
    empty list) and the cross-reference id of its submitter.
  */
  datatype Header = Header(
    characterSet: Option<CharacterSet>,
    copyrightData: Option<seq<string>>,
    submitter: Option<string>)

  /** The header of a new document: a default character set, no copyright lines, no submitter. */
  function NewHeader(): (h: Header)
    ensures h.characterSet == Some(NewCharacterSet())
    ensures h.copyrightData == Some([])
    ensures h.submitter.None?
  {
    Header(Some(NewCharacterSet()), Some([]), None)
  }

  /**
    A document: its header and its submitters. The source's map from xref to
    submitter is represented by its entries in iteration order, each keyed
    by the submitter's own xref. Nothing here demands unique keys (see
    `UniqueKeys`), so every property of the validator holds for every
    sequence, including ones no map could produce.
  */
  datatype Gedcom = Gedcom(header: Header, submitters: seq<Submitter>)

  /** `new Gedcom()`: a new header and no submitters. */
  function NewGedcom(): (g: Gedcom)
    ensures g.header == NewHeader() && g.submitters == []
  {
    Gedcom(NewHeader(), [])
  }

  /** No two entries share a key, as in a map. */
  predicate UniqueKeys(subs: seq<Submitter>) {
    forall i, j :: 0 <= i < j < |subs| ==> subs[i].xref != subs[j].xref
  }

  /** Some entry is keyed by `k`. */
  predicate HasSubmitter(subs: seq<Submitter>, k: string) {
    exists i :: 0 <= i < |subs| && subs[i].xref == k
  }

  /**
    `submitters.put(s.xref, s)`: afterwards `s` is the one entry under its key,
    entries under other keys are exactly those before, and keys stay unique.
  */
  function Put(subs: seq<Submitter>, s: Submitter): (r: seq<Submitter>)
    ensures HasSubmitter(r, s.xref)
    ensures forall t :: t in r && t.xref == s.xref ==> t == s
    ensures forall t: Submitter :: t.xref != s.xref ==> (t in r <==> t in subs)
    ensures UniqueKeys(subs) ==> UniqueKeys(r)
  {
    if HasSubmitter(subs, s.xref) then
      var r := seq(|subs|, i requires 0 <= i < |subs| => if subs[i].xref == s.xref then s else subs[i]);
      assert forall t: Submitter :: t.xref != s.xref && t in subs ==> t in r by {
        forall t: Submitter | t.xref != s.xref && t in subs ensures t in r {
          var i :| 0 <= i < |subs| && subs[i] == t;
          assert r[i] == t;
        }
      }
      var j :| 0 <= j < |subs| && subs[j].xref == s.xref;
      assert r[j].xref == s.xref;
      r
    else
      var r := subs + [s];
      assert r[|subs|].xref == s.xref;
      r
  }
}
