# Email draft assistant: reply parser and address-book lookup

The repository is a three-step email assistant for an agent platform: it
authenticates a Gmail connector, drafts an email with a language model, and
sends it. Almost all of it is glue around SDK calls. This project models the
two pieces of `draft_email_function` (1st.py) that hold actual logic:

- **The address-book lookup** (1st.py:86-94). Once a contact name has been
  extracted from the user's instructions, the chat history is scanned in
  order. Only assistant messages that mention `STORED_CONTACT` are searched.
  In each one, `re.search(name + ':([^,]+)', text)` looks for the name
  followed by a colon and captures the run of non-comma characters after it.
  The first message with a match supplies the stored email address, stripped.
  The history is not consulted when the name is `NONE`.
  - `ContactBook.LookupContact` is that loop.
  - `ContactBook.Lookup` says declaratively what the loop returns: the first
    present entry of `Hits`, the per-message contributions.
- **The reply parser** (1st.py:119-133). The model's reply is split at `\n`.
  - A line starting with `RECIPIENT:`, `SUBJECT:` or `STORE_CONTACT:` sets
    that field to the line with every occurrence of the tag removed, then
    stripped.
  - A line starting with `CONTENT:` sets the body: the lines after the first
    line equal to it (`list.index`), joined with `\n` and stripped.
  - Fields no line sets keep their initial values: recipient `TO BE FILLED`,
    empty subject, no address-book note, empty body.
  - `DraftParser.ParseDraft` is that loop.
  - `DraftParser.Parse` says what it computes: every field is decided by the
    LAST line carrying its tag (`LastTagged` over the line `Kinds`).

Modules:

- `PyText` (pytext.dfy) holds the Python builtins the code relies on as pure
  functions over strings: `str.split`, `str.join`, `str.strip()` (with the
  exact `str.isspace` set), `str.startswith`, `str.replace(tag, '')`, `in`
  and `list.index`.
- `Wrappers` (wrappers.dfy) holds `Option`, which stands for Python's
  `None`-or-value.

Behaviours the lemmas make explicit:

- The four tags are mutually exclusive prefixes, so the `elif` order never
  matters (`ClassifyByPrefix`).
- A later tagged line overrides an earlier one, even after a `CONTENT:` line
  (`AppendLine`).
- The body always runs to the end of the reply. An address-book note the
  model writes after the body, as the prompt invites, is therefore both
  recorded as `store_contact` and left inside the email body
  (`StoreNoteAfterBody`).
- When the reply has two identical `CONTENT:` lines, the body starts after
  the first of them, not the last (`BodySuffix`).
- The stored address can never contain a comma (`StoredEmailShape`).
- Messages that are not searched can be inserted anywhere in the history
  without changing the result (`IgnoredMessage`).

## Model

| member | source | states |
|---|---|---|
| `DraftParser.ParseDraft` | 1st.py:119-133 | The loop over the reply's lines returns exactly the draft `Parse` describes: each field comes from the last line carrying its tag, or keeps its initial value. |
| `DraftParser.ClassifyByPrefix` | 1st.py:126-132 | A line is of a given kind if and only if it starts with that kind's tag, for each of the four tags: the `elif` chain's order cannot matter. |
| `DraftParser.ParseUntagged` | 1st.py:120-123 | A reply in which no line starts with a tag yields recipient `TO BE FILLED`, an empty subject, no address-book note and an empty body. |
| `DraftParser.LastTaggedIsLast` | 1st.py:125-132 | The line that decides a field has that field's tag, no later line read has it, and no line decides it exactly when no line read carries the tag. |
| `DraftParser.LastTaggedPrefix` | 1st.py:125-132 | Lines not yet read do not change which line so far decides a field. |
| `DraftParser.LastTaggedStep` | 1st.py:125-132 | Reading one more line makes it the deciding line of its own field and leaves every other field's deciding line where it was. |
| `DraftParser.KindsSnoc` | 1st.py:125-132 | Appending a line to the reply appends its kind to the kinds of the existing lines and changes none of them. |
| `DraftParser.ExtractStep` | 1st.py:126-133 | Reading one line sets only the field its tag names: a tagged line sets its single-line field, a `CONTENT:` line sets the body at its own step, and an untagged line changes nothing, the body included. |
| `DraftParser.ExtractSnoc` | 1st.py:125-131 | After one more line, the recipient, subject and address-book note are that line's value for the field it tags and unchanged otherwise. |
| `DraftParser.AppendLine` | 1st.py:125-131 | Appending a line to the reply text sets the single-line field its tag names and keeps the other two, whatever precedes it: the last tagged line wins. |
| `DraftParser.BodySuffix` | 1st.py:132-133 | With no `CONTENT:` line the body is empty. Otherwise it is the stripped join of the lines after the first line equal to the last `CONTENT:` line, and no earlier line equals that line. |
| `DraftParser.AfterSnoc` | 1st.py:133 | Appending a line to the reply extends the lines after an existing line's first occurrence by exactly that line. |
| `DraftParser.BodyAtSnoc` | 1st.py:132-133 | A further line that is not a `CONTENT:` line leaves the body taken after the same `CONTENT:` line, now in the longer reply. |
| `DraftParser.TaggedFieldValue` | 1st.py:127 | A line made of a tag, a space and a value that does not contain the tag yields the value stripped. |
| `DraftParser.SplitAppendLine` | 1st.py:125 | Splitting a reply with one newline-free line appended gives the old reply's lines followed by that line. |
| `DraftParser.SplitFormatted` | 1st.py:103-107 | A reply written in the prompt's layout, with newline-free parts, splits back into exactly the lines it was built from. |
| `DraftParser.ReplyKinds` | 1st.py:103-107 | In the prompt's layout with untagged body lines, the lines are a recipient line, a subject line, a `CONTENT:` line and untagged lines. |
| `DraftParser.ReplyLinesShape` | 1st.py:125-133 | In that layout the first, second and third lines decide the recipient, subject and body, no line gives an address-book note, and `list.index` finds `CONTENT:` at position 2. |
| `DraftParser.ParseFormatted` | 1st.py:119-133 | Round trip: parsing a reply written in the prompt's layout gives back its recipient, subject and body, each stripped, and no address-book note. |
| `DraftParser.NoteBody` | 1st.py:132-133 | An address-book note line appended after a formatted reply becomes the last line of the body. |
| `DraftParser.StoreNoteAfterBody` | 1st.py:125-133 | For a formatted reply followed by a `STORE_CONTACT:` line, the note is recorded and also kept at the end of the body, while recipient and subject round-trip. |
| `ContactBook.LookupContact` | 1st.py:86-94 | The scan returns no address for the name `NONE`; otherwise it returns exactly the stripped capture of the earliest searched message whose text matches the pattern. |
| `ContactBook.FirstMatch` | 1st.py:91 | `re.search` finds the leftmost position where `<name>:` is followed by a non-comma character; it finds nothing exactly when no position qualifies. |
| `ContactBook.RunEnd` | 1st.py:91 | The greedy group `[^,]+` ends at the first comma after its start, or at the end of the text, and holds no comma. |
| `ContactBook.Capture` | 1st.py:91-92 | A captured group is non-empty and contains no comma. |
| `ContactBook.CaptureIsLeftmost` | 1st.py:91-92 | There is a capture exactly when the pattern matches somewhere, and then it is the whole comma-free run after the leftmost match. |
| `ContactBook.CaptureLeadingEntry` | 1st.py:91-93 | A message text beginning `<name>:<email>`, with the email ended by a comma or by the end of the text, yields exactly that email. |
| `ContactBook.LookupEarliest` | 1st.py:86-94 | For a name other than `NONE`, the earliest message that contributes an address supplies the stored email: the scan stops at the first hit. |
| `ContactBook.HitShape` | 1st.py:90-93 | A message contributes an address only if it is a searched assistant message with a match, and the address is the stripped capture with no comma. |
| `ContactBook.FirstSomeNone` | 1st.py:89-94 | The scan finds nothing exactly when no message contributes an address. |
| `ContactBook.FirstSomeEarliest` | 1st.py:89-94 | A message that contributes an address, with none before it contributing one, supplies the result. |
| `ContactBook.FirstSomeSource` | 1st.py:89-94 | A found address is the contribution of some message, and no earlier message contributes one. |
| `ContactBook.FirstSomeAppend` | 1st.py:89-94 | Scanning two stretches of history in turn: the later stretch matters only when the earlier one yields nothing. |
| `ContactBook.HitsAppend` | 1st.py:89-93 | Each message's contribution depends on that message alone, so the contributions of a concatenated history are the two parts' contributions concatenated. |
| `ContactBook.IgnoredMessage` | 1st.py:90 | Inserting a message that is not searched anywhere in the history leaves the looked-up address unchanged. |
| `ContactBook.StoredEmailShape` | 1st.py:86-94 | A found address comes from a name other than `NONE`, contains no comma, and is what some message of the history contributes. |
| `PyText.Strip` | 1st.py:127 | `str.strip()` returns a string with no whitespace at either end, and it is no longer than its input. |
| `PyText.StripShape` | 1st.py:127 | `strip()` removes only whitespace, and only at the two ends: the input is that whitespace around the result. |
| `PyText.StripUnique` | 1st.py:127 | Any trimmed string that the input surrounds with whitespace alone is the result of `strip()`. |
| `PyText.StripIdempotent` | 1st.py:127 | Stripping a stripped string changes nothing. |
| `PyText.StripLeadingSpace` | 1st.py:127 | A leading whitespace character does not survive `strip()`. |
| `PyText.StripDropsOnly` | 1st.py:93 | `strip()` cannot introduce a character that was not in its input. |
| `PyText.SkipSpaceSkips` | 1st.py:127 | Everything `strip()` skips at the front is whitespace. |
| `PyText.SkipSpaceBackSkips` | 1st.py:127 | Everything `strip()` drops at the back is whitespace. |
| `PyText.RemoveAll` | 1st.py:127 | `replace(tag, '')` never lengthens a string and leaves it unchanged when the tag does not occur in it. |
| `PyText.RemoveAllFirst` | 1st.py:127 | When the leftmost copy of the tag starts at `p`, `replace(tag, '')` keeps everything before `p`, drops that copy and goes on removing after it; with the case where the tag is absent, this fixes the result. |
| `PyText.RemoveAllLeading` | 1st.py:127 | Removing a tag from a line that starts with it drops that leading copy and then works on the rest. |
| `PyText.ContainsCons` | 1st.py:90 | A pattern that does not start with a character occurs in that character followed by a string exactly when it occurs in the string. |
| `PyText.StartsWithAppend` | 1st.py:126 | A string starts with any string it is built from at its front. |
| `PyText.Split` | 1st.py:125 | `split('\n')` always yields at least one part, and no part contains the separator. |
| `PyText.JoinSplit` | 1st.py:133 | Joining the parts of a split with the separator gives back the original string. |
| `PyText.SplitJoin` | 1st.py:125 | Splitting the join of at least one separator-free part gives back exactly those parts. |
| `PyText.SplitAppend` | 1st.py:125 | Splitting two strings joined by a separator gives the parts of each, one after the other. |
| `PyText.SplitNoSep` | 1st.py:125 | A string without the separator splits into itself alone. |
| `PyText.JoinSnoc` | 1st.py:133 | Joining one more part appends the separator and that part. |
| `PyText.IndexOf` | 1st.py:133 | `list.index` returns a position holding the element. |
| `PyText.IndexOfIsFirst` | 1st.py:133 | No position before the one `list.index` returns holds the element. |
| `PyText.IndexOfUnique` | 1st.py:133 | An occurrence with none before it is the one `list.index` returns. |
| `PyText.IndexOfSnoc` | 1st.py:133 | Appending an element does not move the first occurrence of an element already present. |

## Left out

- Gmail authentication (1st.py:4-34), the connector lookup and the
  try/except reporting around it (1st.py:53-68) are calls into the agent
  platform's SDK, which is not part of this model.
- The two language-model calls are left out. These are the name extraction
  (1st.py:73-83) and the drafting prompt (1st.py:97-116). Their answers
  become inputs: `LookupContact` takes the extracted name, `ParseDraft` the
  reply text. `FormatReply` only restates the layout the prompt asks for.
- `client.get_agent_context_chat_history()` (1st.py:88) becomes the
  `history` parameter of `LookupContact`.
- The progress messages sent to the user (1st.py:70, 1st.py:135-136) and the
  construction of the `AgentResponse` (1st.py:138-142) are output only.
- `send_email_function` (1st.py:145 onwards) and the workflow-graph wiring
  (1st.py:200 onwards) are an HTTP call and configuration.
- ContactBook.Capture: reads the name as literal text. In the source the
  extracted name is interpolated into the regular expression unescaped, so a
  name containing regex metacharacters (`.`, `+`, `(` …) would change the
  pattern or make `re.compile` raise. That is not modelled.
- PyText.Split: models `str.split` with a one-character separator only, the
  only form the core uses.
- Strings are sequences of Unicode code points; Python strings that hold
  lone surrogates are not modelled.
