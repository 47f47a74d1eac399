/**
  The parser that turns the language model's reply into the fields of an
  email draft (`draft_email_function`, 1st.py:119-133). The reply is split
  into lines; a line starting with `RECIPIENT:`, `SUBJECT:` or
  `STORE_CONTACT:` sets that field to the line with the tag removed and
  stripped, and a line starting with `CONTENT:` sets the body to everything
  after it.

  `ParseDraft` is the loop of the source; `Parse` says declaratively what it
  computes (each field is decided by the LAST line carrying its tag), and the
  lemmas below state what follows from that.
 */
module DraftParser {
  import opened Wrappers
  import opened PyText

  const RecipientTag := "RECIPIENT:"
  const SubjectTag := "SUBJECT:"
  const StoreContactTag := "STORE_CONTACT:"
  const ContentTag := "CONTENT:"

  /** The recipient reported when the reply names none. */
  const DefaultRecipient := "TO BE FILLED"

  /** What the parser extracts from a reply. */
  datatype Draft = Draft(recipient: string, subject: string, storeContact: Option<string>, body: string)

  /** The kind of a reply line, by the first tag of the `if`/`elif` chain it starts with. */
  datatype Tag = Recipient | Subject | StoreContact | Content | Untagged

  function Classify(line: string): Tag {
    if StartsWith(line, RecipientTag) then Recipient
    else if StartsWith(line, SubjectTag) then Subject
    else if StartsWith(line, StoreContactTag) then StoreContact
    else if StartsWith(line, ContentTag) then Content
    else Untagged
  }

  /** The value a tagged line gives its field: `line.replace(tag, '').strip()`. */
  function FieldValue(line: string, tag: string): string {
    Strip(RemoveAll(line, tag))
  }

  /** The lines after the first line equal to `line`. */
  function After(lines: seq<string>, line: string): seq<string>
    requires line in lines
  {
    lines[IndexOf(lines, line) + 1..]
  }

  /** The body a `CONTENT:` line gives: the lines after the first line equal
      to it, joined with newlines and stripped. */
  function BodyAfter(lines: seq<string>, line: string): string
    requires line in lines
  {
    Strip(Join("\n", After(lines, line)))
  }

  /** The kind of every line, in order. */
  function Kinds(lines: seq<string>): seq<Tag> {
    seq(|lines|, i requires 0 <= i < |lines| => Classify(lines[i]))
  }

  /** Index of the last line of kind `t` among the first `n`, if any. */
  function LastTagged(kinds: seq<Tag>, n: nat, t: Tag): (r: Option<nat>)
    requires n <= |kinds|
    ensures r.Some? ==> r.value < n
    decreases n
  {
    if n == 0 then None
    else if kinds[n - 1] == t then Some(n - 1)
    else LastTagged(kinds, n - 1, t)
  }

  /** `LastTagged` finds the last line of kind `t`, and nothing when there is none. */
  lemma {:induction false} LastTaggedIsLast(kinds: seq<Tag>, n: nat, t: Tag)
    requires n <= |kinds|
    ensures var r := LastTagged(kinds, n, t);
      && (r.Some? ==> kinds[r.value] == t)
      && (r.Some? ==> forall j :: r.value < j < n ==> kinds[j] != t)
      && (r.None? <==> forall j :: 0 <= j < n ==> kinds[j] != t)
    decreases n
  {
    if n > 0 && kinds[n - 1] != t {
      LastTaggedIsLast(kinds, n - 1, t);
    }
  }

  /** Lines after the first `n` do not affect the search among those `n`. */
  lemma {:induction false} LastTaggedPrefix(kinds: seq<Tag>, more: seq<Tag>, n: nat, t: Tag)
    requires n <= |kinds|
    ensures LastTagged(kinds + more, n, t) == LastTagged(kinds, n, t)
    decreases n
  {
    if n > 0 {
      assert (kinds + more)[n - 1] == kinds[n - 1];
      LastTaggedPrefix(kinds, more, n - 1, t);
    }
  }

  /** Searching one line further finds that line if it has kind `t`, and
      otherwise what the shorter search found. */
  lemma LastTaggedStep(kinds: seq<Tag>, k: Tag, t: Tag)
    ensures LastTagged(kinds + [k], |kinds| + 1, t)
         == if k == t then Some(|kinds|) else LastTagged(kinds, |kinds|, t)
  {
    assert (kinds + [k])[|kinds|] == k;
    LastTaggedPrefix(kinds, [k], |kinds|, t);
  }

  /** The kinds of a longer reply are those of the shorter one and then the new line's. */
  lemma KindsSnoc(lines: seq<string>, line: string)
    ensures Kinds(lines + [line]) == Kinds(lines) + [Classify(line)]
  {
    var longer := Kinds(lines + [line]);
    forall i | 0 <= i < |longer| ensures longer[i] == (Kinds(lines) + [Classify(line)])[i] {
      if i < |lines| {
        assert (lines + [line])[i] == lines[i];
      }
    }
  }

  /** The draft once the first `n` lines have been read: each field comes
      from the last line read so far that carries its tag, or keeps its
      initial value. */
  function Extract(lines: seq<string>, n: nat): Draft
    requires n <= |lines|
  {
    Draft(RecipientAt(lines, n), SubjectAt(lines, n), StoreContactAt(lines, n), BodyAt(lines, n))
  }

  function RecipientAt(lines: seq<string>, n: nat): string
    requires n <= |lines|
  {
    match LastTagged(Kinds(lines), n, Recipient)
    case None => DefaultRecipient
    case Some(i) => FieldValue(lines[i], RecipientTag)
  }

  function SubjectAt(lines: seq<string>, n: nat): string
    requires n <= |lines|
  {
    match LastTagged(Kinds(lines), n, Subject)
    case None => ""
    case Some(i) => FieldValue(lines[i], SubjectTag)
  }

  function StoreContactAt(lines: seq<string>, n: nat): Option<string>
    requires n <= |lines|
  {
    match LastTagged(Kinds(lines), n, StoreContact)
    case None => None
    case Some(i) => Some(FieldValue(lines[i], StoreContactTag))
  }

  function BodyAt(lines: seq<string>, n: nat): string
    requires n <= |lines|
  {
    match LastTagged(Kinds(lines), n, Content)
    case None => ""
    case Some(i) => BodyAfter(lines, lines[i])
  }

  /** The draft the parser extracts from the whole reply `content`. */
  function Parse(content: string): Draft {
    ParseLines(Split(content, '\n'))
  }

  /** The draft read from all of `lines`. */
  function ParseLines(lines: seq<string>): Draft {
    Extract(lines, |lines|)
  }

  /** Reading line `k` sets the field its tag names and nothing else. */
  lemma ExtractStep(lines: seq<string>, k: nat)
    requires k < |lines|
    ensures var d, line := Extract(lines, k), lines[k];
      Extract(lines, k + 1) == match Classify(line)
        case Recipient => d.(recipient := FieldValue(line, RecipientTag))
        case Subject => d.(subject := FieldValue(line, SubjectTag))
        case StoreContact => d.(storeContact := Some(FieldValue(line, StoreContactTag)))
        case Content => d.(body := BodyAfter(lines, line))
        case Untagged => d
  {
  }

  /** The loop of 1st.py:119-133 over the lines of the reply. */
  method ParseDraft(content: string)
    returns (recipient: string, subject: string, body: string, storeContact: Option<string>)
    ensures Draft(recipient, subject, storeContact, body) == Parse(content)
  {
    recipient := DefaultRecipient;
    subject := "";
    body := "";
    storeContact := None;
    var lines := Split(content, '\n');
    for k := 0 to |lines|
      invariant Draft(recipient, subject, storeContact, body) == Extract(lines, k)
    {
      var line := lines[k];
      ExtractStep(lines, k);
      if StartsWith(line, RecipientTag) {
        assert Classify(line) == Recipient;
        recipient := Strip(RemoveAll(line, RecipientTag));
      } else if StartsWith(line, SubjectTag) {
        assert Classify(line) == Subject;
        subject := Strip(RemoveAll(line, SubjectTag));
      } else if StartsWith(line, StoreContactTag) {
        assert Classify(line) == StoreContact;
        storeContact := Some(Strip(RemoveAll(line, StoreContactTag)));
      } else if StartsWith(line, ContentTag) {
        assert Classify(line) == Content;
        body := Strip(Join("\n", lines[IndexOf(lines, line) + 1..]));
      } else {
        assert Classify(line) == Untagged;
      }
    }
  }

  /** The four tags are mutually exclusive prefixes, so the order of the
      `if`/`elif` chain never matters: a line has a kind exactly when it
      starts with that kind's tag. */
  lemma ClassifyByPrefix(line: string)
    ensures Classify(line) == Recipient <==> StartsWith(line, RecipientTag)
    ensures Classify(line) == Subject <==> StartsWith(line, SubjectTag)
    ensures Classify(line) == StoreContact <==> StartsWith(line, StoreContactTag)
    ensures Classify(line) == Content <==> StartsWith(line, ContentTag)
  {
    if StartsWith(line, SubjectTag) || StartsWith(line, StoreContactTag) {
      assert line[0] == 'S';
      assert !StartsWith(line, RecipientTag);
    }
    if StartsWith(line, StoreContactTag) {
      assert line[1] == 'T';
      assert !StartsWith(line, SubjectTag);
    }
    if StartsWith(line, ContentTag) {
      assert line[0] == 'C';
    }
  }

  /** A reply none of whose lines starts with a tag leaves every field at
      its initial value. */
  lemma ParseUntagged(content: string)
    requires forall line :: line in Split(content, '\n') ==>
      !StartsWith(line, RecipientTag) && !StartsWith(line, SubjectTag) &&
      !StartsWith(line, StoreContactTag) && !StartsWith(line, ContentTag)
    ensures Parse(content) == Draft(DefaultRecipient, "", None, "")
  {
    var lines := Split(content, '\n');
    var kinds := Kinds(lines);
    forall j | 0 <= j < |lines| ensures kinds[j] == Untagged {
      assert lines[j] in lines;
    }
    LastTaggedIsLast(kinds, |lines|, Recipient);
    LastTaggedIsLast(kinds, |lines|, Subject);
    LastTaggedIsLast(kinds, |lines|, StoreContact);
    LastTaggedIsLast(kinds, |lines|, Content);
  }

  /** Reading a further line sets the single-line field its tag names and keeps the other two. */
  lemma ExtractSnoc(lines: seq<string>, line: string)
    ensures var d, e := Extract(lines, |lines|), Extract(lines + [line], |lines| + 1);
      && e.recipient == (if Classify(line) == Recipient then FieldValue(line, RecipientTag) else d.recipient)
      && e.subject == (if Classify(line) == Subject then FieldValue(line, SubjectTag) else d.subject)
      && e.storeContact == (if Classify(line) == StoreContact then Some(FieldValue(line, StoreContactTag)) else d.storeContact)
  {
    var longer, n, kinds := lines + [line], |lines|, Kinds(lines);
    KindsSnoc(lines, line);
    assert RecipientAt(longer, n + 1)
        == (if Classify(line) == Recipient then FieldValue(line, RecipientTag) else RecipientAt(lines, n)) by {
      LastTaggedStep(kinds, Classify(line), Recipient);
      SnocAt(lines, line, LastTagged(kinds, n, Recipient));
    }
    assert SubjectAt(longer, n + 1)
        == (if Classify(line) == Subject then FieldValue(line, SubjectTag) else SubjectAt(lines, n)) by {
      LastTaggedStep(kinds, Classify(line), Subject);
      SnocAt(lines, line, LastTagged(kinds, n, Subject));
    }
    assert StoreContactAt(longer, n + 1)
        == (if Classify(line) == StoreContact then Some(FieldValue(line, StoreContactTag)) else StoreContactAt(lines, n)) by {
      LastTaggedStep(kinds, Classify(line), StoreContact);
      SnocAt(lines, line, LastTagged(kinds, n, StoreContact));
    }
  }

  /** Splitting a reply with one more line appended. */
  lemma SplitAppendLine(content: string, line: string)
    requires '\n' !in line
    ensures Split(content + "\n" + line, '\n') == Split(content, '\n') + [line]
  {
    SplitAppend(content, line, '\n');
    SplitNoSep(line, '\n');
  }

  /** Appending one more line to the reply sets the field its tag names and
      leaves the other two single-line fields as they were, whatever came
      before it, a `CONTENT:` line included: the last tagged line wins. */
  lemma AppendLine(content: string, line: string)
    requires '\n' !in line
    ensures var before, after := Parse(content), Parse(content + "\n" + line);
      && after.recipient == (if Classify(line) == Recipient then FieldValue(line, RecipientTag) else before.recipient)
      && after.subject == (if Classify(line) == Subject then FieldValue(line, SubjectTag) else before.subject)
      && after.storeContact == (if Classify(line) == StoreContact then Some(FieldValue(line, StoreContactTag)) else before.storeContact)
  {
    SplitAppendLine(content, line);
    ParseLinesSnoc(Split(content, '\n'), line);
    ExtractSnoc(Split(content, '\n'), line);
  }

  /** The body is decided by the last `CONTENT:` line: it is the stripped
      join of the lines after the first line equal to that one, a proper
      suffix of the reply's lines; with no `CONTENT:` line it stays empty. */
  lemma BodySuffix(content: string)
    ensures var lines, body := Split(content, '\n'), Parse(content).body;
      match LastTagged(Kinds(lines), |lines|, Content)
      case None => body == ""
      case Some(i) =>
        exists j :: 0 < j <= i + 1 && lines[j - 1] == lines[i] && body == Strip(Join("\n", lines[j..]))
          && forall k :: 0 <= k < j - 1 ==> lines[k] != lines[i]
  {
    var lines := Split(content, '\n');
    match LastTagged(Kinds(lines), |lines|, Content)
    case None =>
    case Some(i) =>
      var j := IndexOf(lines, lines[i]) + 1;
      IndexOfIsFirst(lines, lines[i]);
      assert lines[j - 1] == lines[i];
  }

  /** A line made of a tag, a space and a value that does not repeat the tag
      gives that value, stripped. */
  lemma TaggedFieldValue(tag: string, v: string)
    requires |tag| > 0 && tag[0] != ' '
    requires !Contains(v, tag)
    ensures FieldValue(tag + " " + v, tag) == Strip(v)
  {
    var spaced := [' '] + v;
    assert tag + " " + v == tag + spaced;
    assert RemoveAll(tag + spaced, tag) == RemoveAll(spaced, tag) by {
      RemoveAllLeading(tag, spaced);
    }
    assert RemoveAll(spaced, tag) == spaced by {
      ContainsCons(' ', v, tag);
    }
    StripLeadingSpace(' ', v);
  }

  /** A reply in the layout the drafting prompt asks for (1st.py:103-107):
      a recipient line, a subject line, a bare `CONTENT:` line and the body. */
  function FormatReply(recipient: string, subject: string, bodyLines: seq<string>): string {
    Join("\n", ReplyLines(recipient, subject, bodyLines))
  }

  function ReplyLines(recipient: string, subject: string, bodyLines: seq<string>): seq<string> {
    [RecipientTag + " " + recipient, SubjectTag + " " + subject, ContentTag] + bodyLines
  }

  /** The lines of a formatted reply are the ones it was built from. */
  lemma SplitFormatted(recipient: string, subject: string, bodyLines: seq<string>)
    requires '\n' !in recipient && '\n' !in subject
    requires forall k :: 0 <= k < |bodyLines| ==> '\n' !in bodyLines[k]
    ensures Split(FormatReply(recipient, subject, bodyLines), '\n') == ReplyLines(recipient, subject, bodyLines)
  {
    var lines := ReplyLines(recipient, subject, bodyLines);
    forall k | 0 <= k < |lines| ensures '\n' !in lines[k] {
      if k >= 3 { assert lines[k] == bodyLines[k - 3]; }
    }
    SplitJoin(lines, '\n');
  }

  /** The kinds of the lines of a formatted reply: a recipient line, a
      subject line, a `CONTENT:` line and untagged body lines. */
  lemma ReplyKinds(recipient: string, subject: string, bodyLines: seq<string>)
    requires forall k :: 0 <= k < |bodyLines| ==> Classify(bodyLines[k]) == Untagged
    ensures var kinds := Kinds(ReplyLines(recipient, subject, bodyLines));
      && kinds[0] == Recipient && kinds[1] == Subject && kinds[2] == Content
      && forall k :: 3 <= k < |kinds| ==> kinds[k] == Untagged
  {
    var lines := ReplyLines(recipient, subject, bodyLines);
    assert Classify(lines[0]) == Recipient by {
      assert lines[0] == RecipientTag + (" " + recipient);
      StartsWithAppend(RecipientTag, " " + recipient);
    }
    assert Classify(lines[1]) == Subject by {
      assert lines[1] == SubjectTag + (" " + subject);
      StartsWithAppend(SubjectTag, " " + subject);
      assert lines[1][0] == 'S';
    }
    assert Classify(lines[2]) == Content by {
      assert lines[2] == ContentTag + "";
      StartsWithAppend(ContentTag, "");
      assert lines[2][0] == 'C';
    }
    forall k | 3 <= k < |lines| ensures Classify(lines[k]) == Untagged {
      assert lines[k] == bodyLines[k - 3];
    }
  }

  /** Which lines of a formatted reply decide its fields, and which line
      `list.index` finds for `CONTENT:`. */
  lemma ReplyLinesShape(recipient: string, subject: string, bodyLines: seq<string>)
    requires forall k :: 0 <= k < |bodyLines| ==> Classify(bodyLines[k]) == Untagged
    ensures var lines := ReplyLines(recipient, subject, bodyLines);
      && LastTagged(Kinds(lines), |lines|, Recipient) == Some(0)
      && LastTagged(Kinds(lines), |lines|, Subject) == Some(1)
      && LastTagged(Kinds(lines), |lines|, Content) == Some(2)
      && LastTagged(Kinds(lines), |lines|, StoreContact) == None
      && IndexOf(lines, ContentTag) == 2
  {
    var lines := ReplyLines(recipient, subject, bodyLines);
    var kinds := Kinds(lines);
    ReplyKinds(recipient, subject, bodyLines);
    assert LastTagged(kinds, |lines|, Recipient) == Some(0) by {
      LastTaggedIsLast(kinds, |lines|, Recipient);
    }
    assert LastTagged(kinds, |lines|, Subject) == Some(1) by {
      LastTaggedIsLast(kinds, |lines|, Subject);
    }
    assert LastTagged(kinds, |lines|, Content) == Some(2) by {
      LastTaggedIsLast(kinds, |lines|, Content);
    }
    assert LastTagged(kinds, |lines|, StoreContact) == None by {
      LastTaggedIsLast(kinds, |lines|, StoreContact);
    }
    assert IndexOf(lines, ContentTag) == 2 by {
      assert lines[0][0] != ContentTag[0] && lines[1][0] != ContentTag[0];
      IndexOfUnique(lines, ContentTag, 2);
    }
  }

  /** Round trip: parsing a reply written in the prompt's layout gives back
      the recipient, the subject and the body, each stripped, and no
      address-book note. */
  lemma ParseFormatted(recipient: string, subject: string, bodyLines: seq<string>)
    requires '\n' !in recipient && '\n' !in subject
    requires !Contains(recipient, RecipientTag) && !Contains(subject, SubjectTag)
    requires forall k :: 0 <= k < |bodyLines| ==> '\n' !in bodyLines[k] && Classify(bodyLines[k]) == Untagged
    ensures Parse(FormatReply(recipient, subject, bodyLines))
         == Draft(Strip(recipient), Strip(subject), None, Strip(Join("\n", bodyLines)))
  {
    var lines := ReplyLines(recipient, subject, bodyLines);
    SplitFormatted(recipient, subject, bodyLines);
    ReplyLinesShape(recipient, subject, bodyLines);
    TaggedFieldValue(RecipientTag, recipient);
    TaggedFieldValue(SubjectTag, subject);
    assert lines[3..] == bodyLines;
  }

  /** Proof step: appending keeps the line a search of the shorter sequence
      found, and puts the new line at the end. */
  lemma SnocAt(lines: seq<string>, line: string, r: Option<nat>)
    requires r.Some? ==> r.value < |lines|
    ensures r.Some? ==> (lines + [line])[r.value] == lines[r.value] && (lines + [line])[|lines|] == line
  {
  }

  /** A line appended after an element of `lines` extends the lines after its first occurrence. */
  lemma AfterSnoc(lines: seq<string>, line: string, x: string)
    requires x in lines
    ensures After(lines + [line], x) == After(lines, x) + [line]
  {
    IndexOfSnoc(lines, line, x);
    var j := IndexOf(lines, x) + 1;
    assert (lines + [line])[j..] == lines[j..] + [line];
  }

  /** Proof step: reading all of `lines + [line]` is reading its first
      `|lines| + 1` lines. */
  lemma ParseLinesSnoc(lines: seq<string>, line: string)
    ensures ParseLines(lines + [line]) == Extract(lines + [line], |lines| + 1)
  {
  }

  /** A further line that is not a `CONTENT:` line keeps the `CONTENT:` line the body comes from. */
  lemma BodyAtSnoc(lines: seq<string>, line: string, i: nat)
    requires LastTagged(Kinds(lines), |lines|, Content) == Some(i)
    requires Classify(line) != Content
    ensures BodyAt(lines + [line], |lines| + 1) == BodyAfter(lines + [line], lines[i])
  {
    KindsSnoc(lines, line);
    LastTaggedStep(Kinds(lines), Classify(line), Content);
    SnocAt(lines, line, Some(i));
  }

  /** The body of a formatted reply followed by a note line runs to the end. */
  lemma NoteBody(recipient: string, subject: string, bodyLines: seq<string>, note: string)
    requires forall k :: 0 <= k < |bodyLines| ==> Classify(bodyLines[k]) == Untagged
    requires Classify(note) == StoreContact
    ensures ParseLines(ReplyLines(recipient, subject, bodyLines) + [note]).body
         == Strip(Join("\n", bodyLines + [note]))
  {
    var lines := ReplyLines(recipient, subject, bodyLines);
    assert LastTagged(Kinds(lines), |lines|, Content) == Some(2) && IndexOf(lines, lines[2]) == 2 by {
      ReplyLinesShape(recipient, subject, bodyLines);
    }
    assert After(lines, lines[2]) == bodyLines;
    ParseLinesSnoc(lines, note);
    BodyAtSnoc(lines, note, 2);
    AfterSnoc(lines, note, lines[2]);
  }

  /** An address-book note written after the body, as the prompt allows,
      is recorded as `store_contact` and also stays in the body, because the
      body runs to the end of the reply. */
  lemma StoreNoteAfterBody(recipient: string, subject: string, bodyLines: seq<string>, note: string)
    requires '\n' !in recipient && '\n' !in subject && '\n' !in note
    requires !Contains(recipient, RecipientTag) && !Contains(subject, SubjectTag)
    requires forall k :: 0 <= k < |bodyLines| ==> '\n' !in bodyLines[k] && Classify(bodyLines[k]) == Untagged
    requires StartsWith(note, StoreContactTag)
    ensures Parse(FormatReply(recipient, subject, bodyLines) + "\n" + note)
         == Draft(Strip(recipient), Strip(subject), Some(FieldValue(note, StoreContactTag)),
                  Strip(Join("\n", bodyLines + [note])))
  {
    var content := FormatReply(recipient, subject, bodyLines);
    ParseFormatted(recipient, subject, bodyLines);
    assert Classify(note) == StoreContact by { ClassifyByPrefix(note); }
    AppendLine(content, note);
    SplitFormatted(recipient, subject, bodyLines);
    SplitAppendLine(content, note);
    NoteBody(recipient, subject, bodyLines, note);
  }
}
