/**
  The finding model of the validator: a severity, the problem found (whose
  message is composed from fixed phrase fragments) and the object it is
  about, plus the two queries callers use on a list of findings: "is there
  a finding of this severity whose message contains every keyword" and
  "are there no findings at or above a severity".
*/
module Findings {

  /** Severities, from least to most important. */
  datatype Severity = Info | Warning | Error

  /** Importance of a severity: ERROR > WARNING > INFO. */
  function Rank(s: Severity): (n: nat)
    ensures n <= 2
    ensures s == Error <==> n == 2
    ensures s == Info <==> n == 0
  {
    match s
    case Info => 0
    case Warning => 1
    case Error => 2
  }

  /**
    The object a finding is about: a path into the document graph, standing
    for the source's reference to the offending instance.
  */
  datatype Subject =
    | DocumentItem
    | HeaderItem
    | CharacterSetItem
    | CharacterSetNameItem
    | SubmitterNameItem(xref: string)

  /** The defects the header, character-set, custom-tag and submitter rules detect. */
  datatype Problem =
    | CharacterSetNotSpecified
    | CustomTagsNull
    | CharacterSetNameNotDefined
    | CharacterSetNotSupported
    | CopyrightDataNull
    | SubmitterNotSpecifiedInHeader
    | SubmitterNotFound
    | NoSubmitters

  /** The fixed phrases each problem's message is composed of, in order. */
  function Phrases(p: Problem): seq<string> {
    match p
    case CharacterSetNotSpecified => ["character set", " in header ", "not specified"]
    case CustomTagsNull => ["custom tag", " collection ", "is null", " - must be at least an empty collection"]
    case CharacterSetNameNotDefined => ["character set", " ", "name", " was ", "not", " ", "defined"]
    case CharacterSetNotSupported => ["character set", " name is ", "not", " one of the ", "supported", " encodings"]
    case CopyrightDataNull => ["copyright", " data collection is null - must be at least an empty collection"]
    case SubmitterNotSpecifiedInHeader => ["submitter", " ", "not specified", " in header"]
    case SubmitterNotFound => ["submitter", " referenced in header is not one of the document's submitters"]
    case NoSubmitters => ["submitter", " records ", "not specified", " in document"]
  }

  /** The phrases of a message, run together. */
  function Concat(parts: seq<string>): string {
    if parts == [] then "" else parts[0] + Concat(parts[1..])
  }

  /** The human-readable text of a problem. */
  function Message(p: Problem): string {
    Concat(Phrases(p))
  }

  datatype Finding = Finding(severity: Severity, problem: Problem, subject: Subject) {
    function MessageText(): string {
      Message(problem)
    }
  }

  /** `k` occurs in `s` starting at position `i`. */
  predicate OccursAt(s: string, k: string, i: int) {
    0 <= i <= |s| - |k| && s[i..i + |k|] == k
  }

  /** `k` occurs in `s` as a contiguous, case-sensitive substring. */
  predicate Contains(s: string, k: string) {
    exists i :: 0 <= i <= |s| && OccursAt(s, k, i)
  }

  /** Every keyword occurs in `s`, each on its own, in any order. */
  predicate ContainsAll(s: string, keywords: seq<string>) {
    forall k :: k in keywords ==> Contains(s, k)
  }

  /** Some finding has severity `sev` and a message containing every keyword. */
  predicate Has(findings: seq<Finding>, sev: Severity, keywords: seq<string>) {
    exists f :: f in findings && f.severity == sev && ContainsAll(f.MessageText(), keywords)
  }

  /** No finding is at or above `threshold`; with threshold INFO, no finding at all. */
  predicate NoIssues(findings: seq<Finding>, threshold: Severity) {
    forall f :: f in findings ==> Rank(f.severity) < Rank(threshold)
  }

  /** The default "no issues" query treats every finding as an issue. */
  lemma NoIssuesDefault(findings: seq<Finding>)
    ensures NoIssues(findings, Info) <==> findings == []
  {
    if findings != [] {
      assert findings[0] in findings;
    }
  }

  /** How many findings report problem `p` about subject `subj`. */
  function Count(findings: seq<Finding>, p: Problem, subj: Subject): nat {
    if findings == [] then 0
    else
      (if findings[0].problem == p && findings[0].subject == subj then 1 else 0)
      + Count(findings[1..], p, subj)
  }

  /** A problem is reported exactly when it is counted at least once. */
  lemma {:induction false} CountPositive(findings: seq<Finding>, p: Problem, subj: Subject)
    ensures Count(findings, p, subj) > 0
        <==> exists f :: f in findings && f.problem == p && f.subject == subj
  {
    if findings != [] {
      CountPositive(findings[1..], p, subj);
      assert findings == [findings[0]] + findings[1..];
    }
  }

  /** Counts add up over concatenated lists of findings. */
  lemma {:induction false} CountAppend(a: seq<Finding>, b: seq<Finding>, p: Problem, subj: Subject)
    ensures Count(a + b, p, subj) == Count(a, p, subj) + Count(b, p, subj)
  {
    if a != [] {
      CountAppend(a[1..], b, p, subj);
      assert a + b != [];
      assert (a + b)[0] == a[0];
      assert (a + b)[1..] == a[1..] + b;
    } else {
      assert a + b == b;
    }
  }

  /** Counts add up over concatenated lists of findings, for every problem and subject. */
  lemma CountAppendAll(a: seq<Finding>, b: seq<Finding>)
    ensures forall p, subj :: Count(a + b, p, subj) == Count(a, p, subj) + Count(b, p, subj)
  {
    forall p, subj ensures Count(a + b, p, subj) == Count(a, p, subj) + Count(b, p, subj) {
      CountAppend(a, b, p, subj);
    }
  }

  /** A single finding is counted once for its own problem and subject, and never otherwise. */
  lemma CountSingle(f: Finding)
    ensures forall p, subj :: Count([f], p, subj) == if f.problem == p && f.subject == subj then 1 else 0
  {
    assert [f][1..] == [];
  }

  /** A problem no finding reports is counted zero times. */
  lemma CountAbsent(findings: seq<Finding>, p: Problem, subj: Subject)
    requires forall f :: f in findings ==> f.problem != p || f.subject != subj
    ensures Count(findings, p, subj) == 0
  {
    CountPositive(findings, p, subj);
  }

  /** A keyword placed between two phrases occurs in the result. */
  lemma ContainsInfix(a: string, k: string, b: string)
    ensures Contains(a + k + b, k)
  {
    assert OccursAt(a + k + b, k, |a|);
  }

  /** Each phrase of a composed message occurs in it. */
  lemma {:induction false} PhraseOccurs(parts: seq<string>, i: int)
    requires 0 <= i < |parts|
    ensures Contains(Concat(parts), parts[i])
  {
    if i == 0 {
      ContainsInfix("", parts[0], Concat(parts[1..]));
      assert "" + parts[0] + Concat(parts[1..]) == Concat(parts);
    } else {
      PhraseOccurs(parts[1..], i - 1);
      var rest := Concat(parts[1..]);
      var j :| 0 <= j <= |rest| && OccursAt(rest, parts[i], j);
      assert Concat(parts) == parts[0] + rest;
      assert (parts[0] + rest)[|parts[0]| + j..|parts[0]| + j + |parts[i]|] == rest[j..j + |parts[i]|];
      assert OccursAt(Concat(parts), parts[i], |parts[0]| + j);
    }
  }

  /** Keywords that are whole phrases of a message all occur in it. */
  lemma PhrasesContained(parts: seq<string>, keywords: seq<string>)
    requires forall k :: k in keywords ==> k in parts
    ensures ContainsAll(Concat(parts), keywords)
  {
    forall k | k in keywords
      ensures Contains(Concat(parts), k)
    {
      var i :| 0 <= i < |parts| && parts[i] == k;
      PhraseOccurs(parts, i);
    }
  }

  /** Every message contains the phrases a caller looks for. */
  lemma MessageKeywords()
    ensures ContainsAll(Message(CharacterSetNotSpecified), ["character set", "not specified"])
    ensures ContainsAll(Message(CustomTagsNull), ["custom tag", "is null"])
    ensures ContainsAll(Message(CharacterSetNameNotDefined), ["character set", "name", "not", "defined"])
    ensures ContainsAll(Message(CharacterSetNotSupported), ["character set", "not", "supported"])
    ensures ContainsAll(Message(CopyrightDataNull), ["copyright"])
    ensures ContainsAll(Message(SubmitterNotSpecifiedInHeader), ["submitter", "not specified"])
    ensures ContainsAll(Message(SubmitterNotFound), ["submitter"])
    ensures ContainsAll(Message(NoSubmitters), ["submitter", "not specified"])
  {
    PhrasesContained(Phrases(CharacterSetNotSpecified), ["character set", "not specified"]);
    PhrasesContained(Phrases(CustomTagsNull), ["custom tag", "is null"]);
    PhrasesContained(Phrases(CharacterSetNameNotDefined), ["character set", "name", "not", "defined"]);
    PhrasesContained(Phrases(CharacterSetNotSupported), ["character set", "not", "supported"]);
    PhrasesContained(Phrases(CopyrightDataNull), ["copyright"]);
    PhrasesContained(Phrases(SubmitterNotSpecifiedInHeader), ["submitter", "not specified"]);
    PhrasesContained(Phrases(SubmitterNotFound), ["submitter"]);
    PhrasesContained(Phrases(NoSubmitters), ["submitter", "not specified"]);
  }
}
