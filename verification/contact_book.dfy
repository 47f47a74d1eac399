/**
  The address-book lookup of `draft_email_function` (1st.py:86-94): once a
  contact name has been extracted from the user's instructions, the agent's
  chat history is scanned, in order, for an assistant message that mentions
  `STORED_CONTACT` and holds `<name>:` followed by an address; the first such
  message supplies the stored address.

  `LookupContact` is the loop of the source; `Lookup` states what it returns,
  and the lemmas below state how that result depends on the history.
 */
module ContactBook {
  import opened Wrappers
  import opened PyText

  /** What the name extraction answers when the instructions name nobody. */
  const NoName := "NONE"
  const AssistantRole := "ASSISTANT"
  const StoredMarker := "STORED_CONTACT"

  /** One entry of the agent's chat history. */
  datatype Message = Message(role: string, text: string)

  /** Only assistant messages that mention `STORED_CONTACT` are searched. */
  predicate Consulted(m: Message) {
    m.role == AssistantRole && Contains(m.text, StoredMarker)
  }

  /** The pattern `<key>([^,]+)` can match at position `p`: `key` starts
      there and is followed by at least one character that is not a comma. */
  predicate MatchesAt(text: string, key: string, p: nat)
    requires p <= |text|
  {
    StartsWith(text[p..], key) && p + |key| < |text| && text[p + |key|] != ','
  }

  /** The leftmost position at or after `from` where the pattern matches. */
  function FirstMatch(text: string, key: string, from: nat): (r: Option<nat>)
    requires from <= |text|
    ensures r.Some? ==> from <= r.value <= |text| && MatchesAt(text, key, r.value)
    ensures r.Some? ==> forall q :: from <= q < r.value ==> !MatchesAt(text, key, q)
    ensures r.None? <==> forall q :: from <= q <= |text| ==> !MatchesAt(text, key, q)
    decreases |text| - from
  {
    if MatchesAt(text, key, from) then Some(from)
    else if from == |text| then None
    else FirstMatch(text, key, from + 1)
  }

  /** Where the greedy run `[^,]+` that starts at `start` ends: at the next
      comma, or at the end of the text. */
  function RunEnd(text: string, start: nat): (e: nat)
    requires start <= |text|
    ensures start <= e <= |text|
    ensures forall k :: start <= k < e ==> text[k] != ','
    ensures e == |text| || text[e] == ','
    decreases |text| - start
  {
    if start == |text| || text[start] == ',' then start else RunEnd(text, start + 1)
  }

  /** `g` is what the group `([^,]+)` captures when the pattern matches
      first at `p`: the whole run of non-comma characters after `key`. */
  ghost predicate LeftmostCapture(text: string, key: string, p: nat, g: string)
    requires p <= |text|
  {
    && MatchesAt(text, key, p)
    && (forall q :: 0 <= q < p ==> !MatchesAt(text, key, q))
    && p + |key| + |g| <= |text|
    && text[p + |key|..p + |key| + |g|] == g
    && (p + |key| + |g| == |text| || text[p + |key| + |g|] == ',')
  }

  /** `re.search(name + ':([^,]+)', text).group(1)`, with `name` read as
      literal text: the run of non-comma characters after the leftmost
      `<name>:` that is followed by one. */
  function Capture(name: string, text: string): (g: Option<string>)
    ensures g.Some? ==> |g.value| > 0 && ',' !in g.value
  {
    var key := name + ":";
    match FirstMatch(text, key, 0)
    case None => None
    case Some(p) =>
      var start := p + |key|;
      var e := RunEnd(text, start);
      assert text[start..e][0] == text[start];
      Some(text[start..e])
  }

  /** `Capture` follows `re.search`: it finds something exactly when the
      pattern matches somewhere, and then it is the whole comma-free run
      after the leftmost match of `<name>:`. */
  lemma CaptureIsLeftmost(name: string, text: string)
    ensures Capture(name, text).Some? <==> exists p :: 0 <= p <= |text| && MatchesAt(text, name + ":", p)
    ensures Capture(name, text).Some? ==>
      exists p :: 0 <= p <= |text| && LeftmostCapture(text, name + ":", p, Capture(name, text).value)
  {
    var key := name + ":";
    match FirstMatch(text, key, 0)
    case None =>
    case Some(p) =>
      var start := p + |key|;
      var e := RunEnd(text, start);
      assert LeftmostCapture(text, key, p, text[start..e]);
  }

  /** What one history message contributes: the stripped capture, when the
      message is searched and the pattern matches. */
  function Hit(name: string, m: Message): Option<string> {
    if !Consulted(m) then None
    else match Capture(name, m.text)
      case None => None
      case Some(g) => Some(Strip(g))
  }

  /** What each message of `history` contributes, in order. */
  function Hits(name: string, history: seq<Message>): seq<Option<string>> {
    seq(|history|, i requires 0 <= i < |history| => Hit(name, history[i]))
  }

  /** The first present value of `xs`, scanning from the front. */
  function FirstSome<T>(xs: seq<Option<T>>): Option<T>
    decreases |xs|
  {
    if |xs| == 0 then None
    else if xs[0].Some? then xs[0]
    else FirstSome(xs[1..])
  }

  /** The stored email the scan finds: the contribution of the earliest
      message that has one; the history is not consulted for `'NONE'`. */
  function Lookup(name: string, history: seq<Message>): Option<string> {
    if name == NoName then None else FirstSome(Hits(name, history))
  }

  /** The loop of 1st.py:86-94 over the chat history, stopping at the first hit. */
  method LookupContact(name: string, history: seq<Message>) returns (stored: Option<string>)
    ensures name == NoName ==> stored == None
    ensures stored == Lookup(name, history)
  {
    stored := None;
    if name != NoName {
      ghost var hits := Hits(name, history);
      for i := 0 to |history|
        invariant stored == None
        invariant FirstSome(hits) == FirstSome(hits[i..])
      {
        var msg := history[i];
        assert hits[i..][1..] == hits[i + 1..];
        if msg.role == AssistantRole && Contains(msg.text, StoredMarker) {
          var found := Capture(name, msg.text);
          if found.Some? {
            stored := Some(Strip(found.value));
            break;
          }
        }
      }
    }
  }

  /** There is a result exactly when some element is present. */
  lemma {:induction false} FirstSomeNone<T>(xs: seq<Option<T>>)
    ensures FirstSome(xs).None? <==> forall i :: 0 <= i < |xs| ==> xs[i].None?
    decreases |xs|
  {
    if |xs| > 0 {
      FirstSomeNone(xs[1..]);
      forall i | 1 <= i < |xs| ensures xs[i] == xs[1..][i - 1] { }
    }
  }

  /** The result is the earliest present element. */
  lemma {:induction false} FirstSomeEarliest<T>(xs: seq<Option<T>>, i: nat)
    requires i < |xs| && xs[i].Some?
    requires forall j :: 0 <= j < i ==> xs[j].None?
    ensures FirstSome(xs) == xs[i]
    decreases i
  {
    if i > 0 {
      var rest := xs[1..];
      assert xs[0].None?;
      assert rest[i - 1] == xs[i];
      forall j | 0 <= j < i - 1 ensures rest[j].None? {
        assert rest[j] == xs[j + 1];
      }
      FirstSomeEarliest(rest, i - 1);
    }
  }

  /** A result is some element `i`, with nothing present before it. */
  lemma {:induction false} FirstSomeSource<T>(xs: seq<Option<T>>) returns (i: nat)
    ensures FirstSome(xs).Some? ==>
      && i < |xs| && FirstSome(xs) == xs[i]
      && forall j :: 0 <= j < i ==> xs[j].None?
    decreases |xs|
  {
    i := 0;
    if |xs| > 0 && xs[0].None? {
      var rest := xs[1..];
      var k := FirstSomeSource(rest);
      i := k + 1;
      if FirstSome(rest).Some? {
        assert xs[i] == rest[k];
        forall j | 0 < j < i ensures xs[j].None? {
          assert xs[j] == rest[j - 1];
        }
      }
    }
  }

  /** Scanning two stretches one after the other: the second is looked at
      only when the first yields nothing. */
  lemma {:induction false} FirstSomeAppend<T>(older: seq<Option<T>>, newer: seq<Option<T>>)
    ensures FirstSome(older + newer)
         == if FirstSome(older).Some? then FirstSome(older) else FirstSome(newer)
    decreases |older|
  {
    if |older| == 0 {
      assert older + newer == newer;
    } else {
      assert (older + newer)[0] == older[0];
      assert (older + newer)[1..] == older[1..] + newer;
      FirstSomeAppend(older[1..], newer);
    }
  }

  /** The contributions of a history built from parts are those of its parts. */
  lemma HitsAppend(name: string, older: seq<Message>, newer: seq<Message>)
    ensures Hits(name, older + newer) == Hits(name, older) + Hits(name, newer)
  {
    var both := older + newer;
    var whole, left, right := Hits(name, both), Hits(name, older), Hits(name, newer);
    assert |whole| == |left + right|;
    forall i | 0 <= i < |whole| ensures whole[i] == (left + right)[i] {
      if i < |older| {
        assert both[i] == older[i];
        assert whole[i] == Hit(name, both[i]) == left[i];
      } else {
        assert both[i] == newer[i - |older|];
        assert whole[i] == Hit(name, both[i]) == right[i - |older|];
      }
    }
  }

  /** Messages that are not searched (not from the assistant, or without
      `STORED_CONTACT`) can be added anywhere without changing the result. */
  lemma IgnoredMessage(name: string, older: seq<Message>, m: Message, newer: seq<Message>)
    requires !Consulted(m)
    ensures Lookup(name, older + [m] + newer) == Lookup(name, older + newer)
  {
    var hm := Hits(name, [m]);
    assert FirstSome(hm) == None by {
      assert hm[0] == None;
      assert hm[1..] == [];
    }
    HitsAppend(name, older + [m], newer);
    HitsAppend(name, older, [m]);
    HitsAppend(name, older, newer);
    FirstSomeAppend(Hits(name, older) + hm, Hits(name, newer));
    FirstSomeAppend(Hits(name, older), hm);
    FirstSomeAppend(Hits(name, older), Hits(name, newer));
  }

  /** The earliest message that contributes an address supplies the stored
      email: the scan stops there (the `break`). */
  lemma LookupEarliest(name: string, history: seq<Message>, i: nat)
    requires name != NoName
    requires i < |history| && Hit(name, history[i]).Some?
    requires forall j :: 0 <= j < i ==> Hit(name, history[j]).None?
    ensures Lookup(name, history) == Hit(name, history[i])
  {
    var hits := Hits(name, history);
    forall j | 0 <= j < i ensures hits[j].None? {
      assert hits[j] == Hit(name, history[j]);
    }
    FirstSomeEarliest(hits, i);
  }

  /** What a message contributes is a non-empty, comma-free capture,
      stripped, so it holds no comma either. */
  lemma HitShape(name: string, m: Message)
    ensures Hit(name, m).Some? ==>
      && Consulted(m)
      && Capture(name, m.text).Some?
      && Hit(name, m).value == Strip(Capture(name, m.text).value)
      && ',' !in Hit(name, m).value
  {
    if Hit(name, m).Some? {
      StripDropsOnly(Capture(name, m.text).value, ',');
    }
  }

  /** A stored email is what some message of the history contributes (see
      `HitShape`), so it never holds a comma. */
  lemma StoredEmailShape(name: string, history: seq<Message>)
    ensures Lookup(name, history).Some? ==>
      && name != NoName
      && ',' !in Lookup(name, history).value
      && exists i :: 0 <= i < |history| && Hit(name, history[i]) == Lookup(name, history)
  {
    if Lookup(name, history).Some? {
      var i := FirstSomeSource(Hits(name, history));
      HitShape(name, history[i]);
    }
  }

  /** An address-book entry `<name>:<email>` at the start of a message,
      ended by a comma or by the end of the text, yields exactly `<email>`. */
  lemma CaptureLeadingEntry(name: string, email: string, rest: string)
    requires |email| > 0 && ',' !in email
    requires rest == [] || rest[0] == ','
    ensures Capture(name, name + ":" + email + rest) == Some(email)
  {
    var key := name + ":";
    var text := key + email + rest;
    assert StartsWith(text[0..], key) by {
      assert text[0..] == key + (email + rest);
      StartsWithAppend(key, email + rest);
    }
    assert text[|key|] == email[0];
    assert MatchesAt(text, key, 0);
    var e := RunEnd(text, |key|);
    forall k | |key| <= k < |key| + |email| ensures text[k] != ',' {
      assert text[k] == email[k - |key|];
    }
    assert rest != [] ==> text[|key| + |email|] == rest[0];
    assert e == |key| + |email|;
    assert text[|key|..e] == email;
  }
}
