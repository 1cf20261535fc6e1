/**
 The triage prompt sent to the text-generation service: four fixed header
 parts, then one line for each piece of user input that is present (keywords,
 questions, description, number of uploaded documents, in that order), all
 joined with newlines.
 */
module Triage {
  import opened Text
  import opened Wrappers

  /** The user-input dictionary: each key may be absent. Uploaded documents
      are never read, only counted; they are represented by their names. */
  datatype UserInput = UserInput(
    keywords: Option<string>,
    questions: Option<string>,
    description: Option<string>,
    uploadedFiles: Option<seq<string>>)

  /** The fixed framing that opens every prompt. */
  const Header: seq<string> := [
    "You are a medical triage assistant. Based on the following symptoms and concerns, ",
    "recommend the most appropriate medical specialty. Your response should be only the name ",
    "of the specialty (e.g., 'Cardiology', 'Dermatology', 'General Practice').",
    "\nUser Input:"
  ]

  const KeywordsLabel: string := "Keywords: "
  const QuestionsLabel: string := "Questions: "
  const DescriptionLabel: string := "Description: "
  const UploadPrefix: string := "User also uploaded "
  const UploadSuffix: string := " document(s)"

  function LabelledLine(tag: string, value: Option<string>): seq<string>
  {
    match value
    case None => []
    case Some(v) => [tag + v]
  }

  function UploadLine(count: nat): string
  {
    UploadPrefix + NatToString(count) + UploadSuffix
  }

  function UploadLines(files: Option<seq<string>>): seq<string>
  {
    match files
    case None => []
    case Some(fs) => [UploadLine(|fs|)]
  }

  /** How many of the four optional inputs are present. */
  function PresentCount(u: UserInput): nat
  {
    (if u.keywords.Some? then 1 else 0) + (if u.questions.Some? then 1 else 0)
    + (if u.description.Some? then 1 else 0) + (if u.uploadedFiles.Some? then 1 else 0)
  }

  /** The list of prompt parts before joining. */
  function PromptParts(u: UserInput): (parts: seq<string>)
    ensures |parts| == |Header| + PresentCount(u)
    ensures parts[..|Header|] == Header
  {
    Header
    + LabelledLine(KeywordsLabel, u.keywords)
    + LabelledLine(QuestionsLabel, u.questions)
    + LabelledLine(DescriptionLabel, u.description)
    + UploadLines(u.uploadedFiles)
  }

  /** The prompt: the parts joined with newlines. It always opens with the
      joined header, and is longer than the header exactly when some input is
      present. */
  function BuildPrompt(u: UserInput): (prompt: string)
    ensures HasPrefix(prompt, Join(Header, "\n"))
    ensures prompt == Join(Header, "\n") <==> PresentCount(u) == 0
  {
    var parts := PromptParts(u);
    var rest := parts[|Header|..];
    assert parts == Header + rest;
    var head := Join(Header, "\n");
    assert |rest| == 0 ==> parts == Header;
    assert |rest| > 0 ==> HasPrefix(Join(parts, "\n"), head) && |Join(parts, "\n")| > |head| by {
      if |rest| > 0 {
        JoinAppend(Header, rest, "\n");
        assert (head + "\n" + Join(rest, "\n"))[..|head|] == head;
      }
    }
    Join(parts, "\n")
  }

  // ---------------------------------------------------------------------
  // Reading a prompt back. The parser inverts the builder: it recovers
  // which inputs were present, their text and the document count.

  /** What a prompt carries about the user input. */
  datatype PromptFields = PromptFields(
    keywords: Option<string>,
    questions: Option<string>,
    description: Option<string>,
    documentCount: Option<nat>)

  /** The information of `u` that the prompt is meant to carry. */
  function FieldsOf(u: UserInput): PromptFields
  {
    PromptFields(u.keywords, u.questions, u.description,
      match u.uploadedFiles
      case None => None
      case Some(fs) => Some(|fs|))
  }

  datatype Line =
    | KeywordsLine(text: string)
    | QuestionsLine(text: string)
    | DescriptionLine(text: string)
    | UploadsLine(count: nat)

  /** Position of a line kind in the fixed order of optional lines. */
  function Rank(l: Line): nat
  {
    match l
    case KeywordsLine(_) => 0
    case QuestionsLine(_) => 1
    case DescriptionLine(_) => 2
    case UploadsLine(_) => 3
  }

  predicate AllDigits(s: string)
  {
    forall i :: 0 <= i < |s| ==> IsDigit(s[i])
  }

  /** Recognises one optional line by its leading label. */
  function ParseLine(s: string): Option<Line>
  {
    if HasPrefix(s, KeywordsLabel) then Some(KeywordsLine(s[|KeywordsLabel|..]))
    else if HasPrefix(s, QuestionsLabel) then Some(QuestionsLine(s[|QuestionsLabel|..]))
    else if HasPrefix(s, DescriptionLabel) then Some(DescriptionLine(s[|DescriptionLabel|..]))
    else if HasPrefix(s, UploadPrefix) && |UploadPrefix| + |UploadSuffix| <= |s|
            && s[|s| - |UploadSuffix|..] == UploadSuffix then
      var digits := s[|UploadPrefix|..|s| - |UploadSuffix|];
      if |digits| > 0 && AllDigits(digits) then Some(UploadsLine(ParseDigits(digits))) else None
    else None
  }

  function WithLine(f: PromptFields, l: Line): PromptFields
  {
    match l
    case KeywordsLine(t) => f.(keywords := Some(t))
    case QuestionsLine(t) => f.(questions := Some(t))
    case DescriptionLine(t) => f.(description := Some(t))
    case UploadsLine(n) => f.(documentCount := Some(n))
  }

  /** Reads the optional lines; each kind may appear at most once and only
      after the kinds that precede it in the fixed order. */
  function ParseLines(lines: seq<string>, next: nat): Option<PromptFields>
    decreases |lines|
  {
    if |lines| == 0 then Some(PromptFields(None, None, None, None))
    else
      match ParseLine(lines[0])
      case None => None
      case Some(l) =>
        if Rank(l) < next then None
        else
          match ParseLines(lines[1..], Rank(l) + 1)
          case None => None
          case Some(f) => Some(WithLine(f, l))
  }

  /** Reads a list of prompt parts: the fixed header, then the optional lines. */
  function ParseParts(parts: seq<string>): Option<PromptFields>
  {
    if |parts| < |Header| || parts[..|Header|] != Header then None
    else ParseLines(parts[|Header|..], 0)
  }

  // ---------------------------------------------------------------------
  // Round trip.

  /** The optional line of kind `k` (0 keywords, 1 questions, 2 description,
      3 uploads), if present. */
  function LineOf(u: UserInput, k: nat): seq<string>
  {
    if k == 0 then LabelledLine(KeywordsLabel, u.keywords)
    else if k == 1 then LabelledLine(QuestionsLabel, u.questions)
    else if k == 2 then LabelledLine(DescriptionLabel, u.description)
    else if k == 3 then UploadLines(u.uploadedFiles)
    else []
  }

  function LinesFrom(u: UserInput, k: nat): seq<string>
    decreases 4 - k
  {
    if k >= 4 then [] else LineOf(u, k) + LinesFrom(u, k + 1)
  }

  /** The fields of `u` of kind `k` and later; the earlier ones absent. */
  function FieldsFrom(u: UserInput, k: nat): PromptFields
  {
    var f := FieldsOf(u);
    PromptFields(
      if k <= 0 then f.keywords else None,
      if k <= 1 then f.questions else None,
      if k <= 2 then f.description else None,
      if k <= 3 then f.documentCount else None)
  }

  lemma ParseLabelled(tag: string, v: string, other1: string, other2: string)
    requires |tag| > 0 && |other1| > 0 && |other2| > 0
    requires tag[0] != other1[0] && tag[0] != other2[0]
    ensures HasPrefix(tag + v, tag)
    ensures (tag + v)[|tag|..] == v
    ensures !HasPrefix(tag + v, other1) && !HasPrefix(tag + v, other2)
  {
  }

  lemma ParseUploadLine(n: nat)
    ensures ParseLine(UploadLine(n)) == Some(UploadsLine(n))
  {
    var s := UploadLine(n);
    var d := NatToString(n);
    assert s[0] == 'U';
    assert s[..|UploadPrefix|] == UploadPrefix;
    assert s[|s| - |UploadSuffix|..] == UploadSuffix;
    assert s[|UploadPrefix|..|s| - |UploadSuffix|] == d;
    ParseNatToString(n);
  }

  /** The line of kind `k`, when present, is read back as that kind with the
      original text or count. */
  lemma ParseLineOf(u: UserInput, k: nat)
    requires k < 4 && LineOf(u, k) != []
    ensures ParseLine(LineOf(u, k)[0]).Some?
    ensures Rank(ParseLine(LineOf(u, k)[0]).value) == k
    ensures WithLine(FieldsFrom(u, k + 1), ParseLine(LineOf(u, k)[0]).value) == FieldsFrom(u, k)
  {
    if k == 0 {
      ParseLabelled(KeywordsLabel, u.keywords.value, QuestionsLabel, DescriptionLabel);
    } else if k == 1 {
      ParseLabelled(QuestionsLabel, u.questions.value, KeywordsLabel, DescriptionLabel);
    } else if k == 2 {
      ParseLabelled(DescriptionLabel, u.description.value, KeywordsLabel, QuestionsLabel);
    } else {
      ParseUploadLine(|u.uploadedFiles.value|);
    }
  }

  lemma {:induction false} ParseLinesFrom(u: UserInput, k: nat, next: nat)
    requires next <= k <= 4
    ensures ParseLines(LinesFrom(u, k), next) == Some(FieldsFrom(u, k))
    decreases 4 - k
  {
    if k == 4 {
    } else if LineOf(u, k) == [] {
      ParseLinesFrom(u, k + 1, next);
      assert LinesFrom(u, k) == LinesFrom(u, k + 1);
      assert FieldsFrom(u, k) == FieldsFrom(u, k + 1);
    } else {
      ParseLineOf(u, k);
      ParseLinesFrom(u, k + 1, k + 1);
      var line := LineOf(u, k)[0];
      var l := ParseLine(line).value;
      var lines := LinesFrom(u, k);
      assert lines == [line] + LinesFrom(u, k + 1);
      assert lines[1..] == LinesFrom(u, k + 1);
      assert ParseLines(lines, next) == Some(WithLine(FieldsFrom(u, k + 1), l));
    }
  }

  /** The parts carry the input exactly: reading them back yields which
      inputs were present, their text and the number of uploaded documents,
      so each optional line is present iff its key is, in the fixed order. */
  lemma PromptPartsRoundTrip(u: UserInput)
    ensures ParseParts(PromptParts(u)) == Some(FieldsOf(u))
  {
    var parts := PromptParts(u);
    assert parts[|Header|..] == LinesFrom(u, 0);
    ParseLinesFrom(u, 0, 0);
  }

  // ---------------------------------------------------------------------
  // The line structure of the joined prompt.

  predicate SingleLine(o: Option<string>)
  {
    o.None? || '\n' !in o.value
  }

  /** When no text input contains a newline, the lines of the prompt are the
      lines of the joined header followed by exactly the optional lines, one
      per present input, in the fixed order. */
  lemma PromptLines(u: UserInput)
    requires SingleLine(u.keywords) && SingleLine(u.questions) && SingleLine(u.description)
    ensures Split(BuildPrompt(u), '\n')
      == Split(Join(Header, "\n"), '\n') + PromptParts(u)[|Header|..]
  {
    var parts := PromptParts(u);
    var rest := parts[|Header|..];
    assert parts == Header + rest;
    forall i | 0 <= i < |rest| ensures '\n' !in rest[i] {
      assert rest[i] in LabelledLine(KeywordsLabel, u.keywords)
        || rest[i] in LabelledLine(QuestionsLabel, u.questions)
        || rest[i] in LabelledLine(DescriptionLabel, u.description)
        || rest[i] in UploadLines(u.uploadedFiles);
      if u.uploadedFiles.Some? && rest[i] == UploadLine(|u.uploadedFiles.value|) {
        var d := NatToString(|u.uploadedFiles.value|);
        assert forall j :: 0 <= j < |d| ==> d[j] != '\n';
      }
    }
    SplitJoinAppend(Header, rest, '\n');
  }
}
