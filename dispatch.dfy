/** What the POST branch of the webhook does to the session map and which
    outbound calls it makes, as functions over an explicit state. The class in
    module Webhook is proved to compute exactly `Run`. */
module Dispatch {
  import opened Basics
  import opened PyStr
  import opened Commands
  import Outbound

  type Sender = string
  type MediaId = string

  /** How a text is classified: `None` when it is not a command. The handler
      uses `Commands.ParseCommand`; the facts below hold for any classifier. */
  type Parser = string -> Option<Command>

  const DefaultLanguage := "English"

  /** One entry of the session map. */
  datatype Session = Session(targetLanguage: string, seenWelcome: bool)

  /** The entry created on first contact. */
  const FirstSession := Session(DefaultLanguage, true)

  /** An inbound message, already parsed: `from`, and the optional `text.body`
      and `audio.id`. */
  datatype Message = Message(sender: Sender, text: Option<string>, audio: Option<MediaId>)

  /** `entry[].changes[].value.messages[]`; a missing key is an empty list. */
  datatype Change = Change(messages: seq<Message>)
  datatype Entry = Entry(changes: seq<Change>)

  /** An outbound external call: the welcome text, the confirmation of a new
      language, or the media fetch, transcription, translation into `lang`,
      speech synthesis and audio reply for one voice note. */
  datatype Action =
    | Welcome(to: Sender)
    | Confirm(to: Sender, lang: string)
    | Pipeline(to: Sender, media: MediaId, lang: string)

  /** The session map, the calls that went through, and whether an exception
      has ended the batch. */
  datatype State = State(sessions: map<Sender, Session>, out: seq<Action>, faulted: bool)

  function Start(sessions: map<Sender, Session>): State {
    State(sessions, [], false)
  }

  /** The messages of an event in the order the three nested loops visit
      them: every message of every change is visited, and only those. */
  function ChangeMessages(cs: seq<Change>): (r: seq<Message>)
    ensures forall i, m :: 0 <= i < |cs| && m in cs[i].messages ==> m in r
    ensures forall m :: m in r ==> exists i :: 0 <= i < |cs| && m in cs[i].messages
  {
    if cs == [] then [] else cs[0].messages + ChangeMessages(cs[1..])
  }

  function EventMessages(es: seq<Entry>): (r: seq<Message>)
    ensures forall i, m :: 0 <= i < |es| && m in ChangeMessages(es[i].changes) ==> m in r
    ensures forall m :: m in r ==> exists i :: 0 <= i < |es| && m in ChangeMessages(es[i].changes)
  {
    if es == [] then [] else ChangeMessages(es[0].changes) + EventMessages(es[1..])
  }

  /** The changes of an entry are visited one block after the other, in order. */
  lemma {:induction false} ChangeMessagesAppend(a: seq<Change>, b: seq<Change>)
    ensures ChangeMessages(a + b) == ChangeMessages(a) + ChangeMessages(b)
  {
    if a != [] {
      assert (a + b)[1..] == a[1..] + b;
      ChangeMessagesAppend(a[1..], b);
    } else {
      assert a + b == b;
    }
  }

  /** The entries of an event are visited one block after the other, in order. */
  lemma {:induction false} EventMessagesAppend(a: seq<Entry>, b: seq<Entry>)
    ensures EventMessages(a + b) == EventMessages(a) + EventMessages(b)
  {
    if a != [] {
      assert (a + b)[1..] == a[1..] + b;
      EventMessagesAppend(a[1..], b);
    } else {
      assert a + b == b;
    }
  }

  function Senders(msgs: seq<Message>): set<Sender> {
    set i | 0 <= i < |msgs| :: msgs[i].sender
  }

  /** The language a sender's audio would be translated into: the stored one,
      or the default for a sender not yet in the map. */
  function LanguageOf(sessions: map<Sender, Session>, s: Sender): string {
    if s in sessions then sessions[s].targetLanguage else DefaultLanguage
  }

  predicate AllWelcomed(sessions: map<Sender, Session>) {
    forall s :: s in sessions ==> sessions[s].seenWelcome
  }

  /** The command a message's text carries, if it has a text at all. */
  function TextCommand(m: Message, parse: Parser): Option<Command> {
    if m.text.Some? then parse(m.text.value) else None
  }

  predicate SetsLanguage(m: Message, s: Sender, parse: Parser) {
    m.sender == s && TextCommand(m, parse).Some? && TextCommand(m, parse).value.SetLanguage?
  }

  /** One external call. `failAt` names the call, counted from zero over the
      request, that raises; every call before it went through and left one
      action in `out`, so the index of the next call is `|out|`. */
  function Call(st: State, a: Action, failAt: Option<nat>): State
    requires !st.faulted
  {
    if failAt == Some(|st.out|) then st.(faulted := true) else st.(out := st.out + [a])
  }

  /** First contact: insert the default session, then send the welcome. */
  function Greet(st: State, sender: Sender, failAt: Option<nat>): (g: State)
    requires !st.faulted
    ensures sender in g.sessions
    ensures sender in st.sessions ==> g == st
    ensures sender !in st.sessions ==>
      && g.sessions == st.sessions[sender := FirstSession]
      && (g.faulted <==> failAt == Some(|st.out|))
      && g.out == if g.faulted then st.out else st.out + [Welcome(sender)]
  {
    if sender in st.sessions then st
    else Call(st.(sessions := st.sessions[sender := FirstSession]), Welcome(sender), failAt)
  }

  /** The rest of one message's handling, for a sender now in the map, given
      what its text parses to: a command is consumed (storing the language and
      confirming it when it has an argument), otherwise a voice note runs the
      pipeline with the sender's stored language. */
  function Handle(g: State, m: Message, cmd: Option<Command>, failAt: Option<nat>): (r: State)
    requires !g.faulted && m.sender in g.sessions
    ensures |g.out| <= |r.out| <= |g.out| + 1 && r.out[..|g.out|] == g.out
    ensures forall i :: |g.out| <= i < |r.out| ==> !r.out[i].Welcome? && r.out[i].to == m.sender
    ensures r.faulted ==> r.out == g.out && failAt == Some(|g.out|)
    ensures r.sessions.Keys == g.sessions.Keys
    ensures forall s :: s in g.sessions && s != m.sender ==> r.sessions[s] == g.sessions[s]
    ensures r.sessions[m.sender].seenWelcome == g.sessions[m.sender].seenWelcome
    ensures cmd.Some? ==> forall i :: |g.out| <= i < |r.out| ==> !r.out[i].Pipeline?
    ensures cmd == Some(MissingArgument) || (cmd.None? && m.audio.None?) ==> r == g
    ensures cmd.Some? && cmd.value.SetLanguage? ==>
      && r.sessions[m.sender] == g.sessions[m.sender].(targetLanguage := cmd.value.lang)
      && (failAt != Some(|g.out|) ==> r.out == g.out + [Confirm(m.sender, cmd.value.lang)])
    ensures !(cmd.Some? && cmd.value.SetLanguage?) ==> r.sessions == g.sessions
    ensures cmd.None? && m.audio.Some? && failAt != Some(|g.out|) ==>
      r.out == g.out + [Pipeline(m.sender, m.audio.value, g.sessions[m.sender].targetLanguage)]
  {
    match cmd
    case Some(SetLanguage(lang)) =>
      var updated := g.sessions[m.sender].(targetLanguage := lang);
      Call(g.(sessions := g.sessions[m.sender := updated]), Confirm(m.sender, lang), failAt)
    case Some(MissingArgument) => g
    case None =>
      if m.audio.Some? then
        Call(g, Pipeline(m.sender, m.audio.value, g.sessions[m.sender].targetLanguage), failAt)
      else g
  }

  /** The body of the innermost loop for one message. */
  function Step(st: State, m: Message, parse: Parser, failAt: Option<nat>): (r: State)
    ensures st.faulted ==> r == st
    ensures failAt.None? ==> r.faulted == st.faulted
    ensures |st.out| <= |r.out| <= |st.out| + 2 && r.out[..|st.out|] == st.out
    ensures st.sessions.Keys <= r.sessions.Keys <= st.sessions.Keys + {m.sender}
    ensures !st.faulted ==> m.sender in r.sessions
    ensures forall s :: s in st.sessions && s != m.sender ==> r.sessions[s] == st.sessions[s]
  {
    if st.faulted then st
    else
      var g := Greet(st, m.sender, failAt);
      if g.faulted then g else Handle(g, m, TextCommand(m, parse), failAt)
  }

  /** The whole batch: messages are handled in order until one raises. */
  function Run(st: State, msgs: seq<Message>, parse: Parser, failAt: Option<nat>): (r: State)
    ensures st.faulted ==> r == st
    ensures failAt.None? ==> r.faulted == st.faulted
    ensures |st.out| <= |r.out| && r.out[..|st.out|] == st.out
    decreases |msgs|
  {
    if msgs == [] then st else Run(Step(st, msgs[0], parse, failAt), msgs[1..], parse, failAt)
  }

  /** The status returned for the batch. */
  function BatchReply(st: State): (r: Reply)
    ensures r.status == 200 <==> !st.faulted
    ensures r.status == 500 <==> st.faulted
  {
    if st.faulted then Reply(Some("ERROR"), 500) else Reply(Some("EVENT_RECEIVED"), 200)
  }

  // ---------------------------------------------------------------------
  // Order and abort semantics of the batch

  /** Running two batches one after the other is running their concatenation. */
  lemma {:induction false} RunAppend(st: State, a: seq<Message>, b: seq<Message>, parse: Parser, failAt: Option<nat>)
    ensures Run(st, a + b, parse, failAt) == Run(Run(st, a, parse, failAt), b, parse, failAt)
    decreases |a|
  {
    if a != [] {
      assert (a + b)[1..] == a[1..] + b;
      RunAppend(Step(st, a[0], parse, failAt), a[1..], b, parse, failAt);
    } else {
      assert a + b == b;
    }
  }

  /** A batch is its first message's step followed by the rest. */
  lemma RunCons(st: State, m: Message, rest: seq<Message>, parse: Parser, failAt: Option<nat>)
    ensures Run(st, [m] + rest, parse, failAt) == Run(Step(st, m, parse, failAt), rest, parse, failAt)
  {
    assert ([m] + rest)[1..] == rest;
  }

  /** After one message, the batch either has ended (a fault) or goes on
      with the rest from the new state. */
  lemma RunResumes(st: State, msgs: seq<Message>, k: nat, parse: Parser, failAt: Option<nat>)
    requires k < |msgs|
    ensures var next := Step(st, msgs[k], parse, failAt);
      && (next.faulted ==> Run(st, msgs[k..], parse, failAt) == next)
      && (!next.faulted ==> Run(st, msgs[k..], parse, failAt) == Run(next, msgs[k + 1..], parse, failAt))
  {
    assert msgs[k..] == [msgs[k]] + msgs[k + 1..];
    RunCons(st, msgs[k], msgs[k + 1..], parse, failAt);
  }

  /** A one-message batch is one step. */
  lemma RunOne(st: State, m: Message, parse: Parser, failAt: Option<nat>)
    ensures Run(st, [m], parse, failAt) == Step(st, m, parse, failAt)
  {
    assert [m][1..] == [];
  }

  /** The state after the first `i + 1` messages is one step past the state
      after the first `i`. */
  lemma RunSnoc(st: State, msgs: seq<Message>, i: nat, parse: Parser, failAt: Option<nat>)
    requires i < |msgs|
    ensures Run(st, msgs[..i + 1], parse, failAt) == Step(Run(st, msgs[..i], parse, failAt), msgs[i], parse, failAt)
  {
    assert msgs[..i + 1] == msgs[..i] + [msgs[i]];
    RunAppend(st, msgs[..i], [msgs[i]], parse, failAt);
    RunOne(Run(st, msgs[..i], parse, failAt), msgs[i], parse, failAt);
  }

  /** Once a message has raised, none of the remaining messages is looked at:
      the map and the calls are those made up to the fault. */
  lemma FaultStopsRemaining(st: State, done: seq<Message>, rest: seq<Message>, parse: Parser, failAt: Option<nat>)
    requires Run(st, done, parse, failAt).faulted
    ensures Run(st, done + rest, parse, failAt) == Run(st, done, parse, failAt)
  {
    RunAppend(st, done, rest, parse, failAt);
  }

  lemma StepFaultTruncates(st: State, m: Message, parse: Parser, k: nat)
    requires !st.faulted && |st.out| <= k
    ensures var n, f := Step(st, m, parse, None), Step(st, m, parse, Some(k));
      && (f.faulted <==> k < |n.out|)
      && (!f.faulted ==> f == n)
      && (f.faulted ==> f.out == n.out[..k])
  {
    var gn, gf := Greet(st, m.sender, None), Greet(st, m.sender, Some(k));
    var c := TextCommand(m, parse);
    if gf.faulted {
      assert Step(st, m, parse, Some(k)) == gf;
      assert Step(st, m, parse, None) == Handle(gn, m, c, None);
    } else {
      assert gf == gn;
      assert Step(st, m, parse, None) == Handle(gn, m, c, None);
      assert Step(st, m, parse, Some(k)) == Handle(gn, m, c, Some(k));
    }
  }

  /** A fault at the k-th external call of a batch delivers exactly the first
      k calls of the fault-free run and nothing after them; a k past the last
      call changes nothing. */
  lemma {:induction false} FaultTruncates(st: State, msgs: seq<Message>, parse: Parser, k: nat)
    requires !st.faulted && |st.out| <= k
    ensures var n, f := Run(st, msgs, parse, None), Run(st, msgs, parse, Some(k));
      && (f.faulted <==> k < |n.out|)
      && (!f.faulted ==> f == n)
      && (f.faulted ==> f.out == n.out[..k])
    decreases |msgs|
  {
    if msgs != [] {
      var n1, f1 := Step(st, msgs[0], parse, None), Step(st, msgs[0], parse, Some(k));
      StepFaultTruncates(st, msgs[0], parse, k);
      if !f1.faulted {
        FaultTruncates(n1, msgs[1..], parse, k);
      } else {
        var n := Run(n1, msgs[1..], parse, None);
        assert n.out[..|n1.out|] == n1.out;
        assert n.out[..k] == n1.out[..k];
      }
    }
  }

  /** Without a fault every sender of the batch ends up in the map, and no one else. */
  lemma {:induction false} SessionKeys(st: State, msgs: seq<Message>, parse: Parser, failAt: Option<nat>)
    requires !Run(st, msgs, parse, failAt).faulted
    ensures Run(st, msgs, parse, failAt).sessions.Keys == st.sessions.Keys + Senders(msgs)
    decreases |msgs|
  {
    if msgs != [] {
      var st1 := Step(st, msgs[0], parse, failAt);
      SessionKeys(st1, msgs[1..], parse, failAt);
      SendersCons(msgs);
    }
  }

  /** Every entry of the map has seen the welcome, and the batch keeps it so:
      an entry is only ever created with the flag set, and later updates copy it. */
  lemma {:induction false} RunKeepsWelcomed(st: State, msgs: seq<Message>, parse: Parser, failAt: Option<nat>)
    requires AllWelcomed(st.sessions)
    ensures AllWelcomed(Run(st, msgs, parse, failAt).sessions)
    decreases |msgs|
  {
    if msgs != [] {
      var st1 := Step(st, msgs[0], parse, failAt);
      assert AllWelcomed(st1.sessions) by {
        if !st.faulted {
          var g := Greet(st, msgs[0].sender, failAt);
          if !g.faulted {
            assert st1 == Handle(g, msgs[0], TextCommand(msgs[0], parse), failAt);
          }
        }
      }
      RunKeepsWelcomed(st1, msgs[1..], parse, failAt);
    }
  }

  lemma SendersCons(msgs: seq<Message>)
    requires msgs != []
    ensures Senders(msgs) == {msgs[0].sender} + Senders(msgs[1..])
  {
    forall x | x in Senders(msgs) ensures x in {msgs[0].sender} + Senders(msgs[1..]) {
      var i :| 0 <= i < |msgs| && msgs[i].sender == x;
      if i > 0 { assert msgs[1..][i - 1].sender == x; }
    }
    forall x | x in Senders(msgs[1..]) ensures x in Senders(msgs) {
      var i :| 0 <= i < |msgs[1..]| && msgs[1..][i].sender == x;
      assert msgs[i + 1].sender == x;
    }
  }

  // ---------------------------------------------------------------------
  // Welcome exactly once

  /** The number of welcomes to `s` among `acts`. */
  function Welcomes(acts: seq<Action>, s: Sender): nat {
    if acts == [] then 0 else (if acts[0] == Welcome(s) then 1 else 0) + Welcomes(acts[1..], s)
  }

  lemma {:induction false} WelcomesAppend(a: seq<Action>, b: seq<Action>, s: Sender)
    ensures Welcomes(a + b, s) == Welcomes(a, s) + Welcomes(b, s)
  {
    if a != [] {
      assert (a + b)[1..] == a[1..] + b;
      WelcomesAppend(a[1..], b, s);
    } else {
      assert a + b == b;
    }
  }

  /** How many welcomes `s` may still receive: none once it is in the map. */
  function WelcomeBudget(sessions: map<Sender, Session>, s: Sender): nat {
    if s in sessions then 0 else 1
  }

  /** A message from a sender not in the map inserts the default session and
      sends the welcome before anything else for that message, and no second one. */
  lemma FirstContact(st: State, m: Message, parse: Parser, failAt: Option<nat>)
    requires !st.faulted && m.sender !in st.sessions && failAt != Some(|st.out|)
    ensures var r := Step(st, m, parse, failAt);
      && |r.out| > |st.out| && r.out[|st.out|] == Welcome(m.sender)
      && Welcomes(r.out[|st.out|..], m.sender) == 1
      && r.sessions[m.sender].seenWelcome
      && r.sessions[m.sender].targetLanguage ==
           (if SetsLanguage(m, m.sender, parse) then TextCommand(m, parse).value.lang else DefaultLanguage)
  {
    var g := Greet(st, m.sender, failAt);
    var r := Step(st, m, parse, failAt);
    assert r == Handle(g, m, TextCommand(m, parse), failAt);
    var n := r.out[|st.out|..];
    assert n[0] == Welcome(m.sender);
    if |n| == 2 {
      assert n[1..][0] == r.out[|g.out|];
      assert n[1..][1..] == [];
      assert Welcomes(n[1..], m.sender) == 0;
    } else {
      assert n[1..] == [];
    }
  }

  /** A sender already in the map is never welcomed again. */
  lemma KnownSenderNotWelcomed(st: State, m: Message, parse: Parser, failAt: Option<nat>)
    requires m.sender in st.sessions
    ensures var r := Step(st, m, parse, failAt);
      forall i :: |st.out| <= i < |r.out| ==> !r.out[i].Welcome?
  {
  }

  /** What a run appends, split at an intermediate state. */
  lemma SuffixSplit(a: seq<Action>, b: seq<Action>, c: seq<Action>)
    requires |a| <= |b| <= |c| && c[..|b|] == b
    ensures c[|a|..] == b[|a|..] + c[|b|..]
  {
  }

  lemma {:induction false} NoWelcomes(acts: seq<Action>, s: Sender)
    requires forall i :: 0 <= i < |acts| ==> !acts[i].Welcome?
    ensures Welcomes(acts, s) == 0
  {
    if acts != [] {
      NoWelcomes(acts[1..], s);
    }
  }

  lemma StepWelcomes(st: State, m: Message, parse: Parser, failAt: Option<nat>, s: Sender)
    ensures var r := Step(st, m, parse, failAt);
      Welcomes(r.out[|st.out|..], s) + WelcomeBudget(r.sessions, s) <= WelcomeBudget(st.sessions, s)
  {
    var r := Step(st, m, parse, failAt);
    var n := r.out[|st.out|..];
    if !st.faulted {
      var g := Greet(st, m.sender, failAt);
      if !g.faulted {
        assert r == Handle(g, m, TextCommand(m, parse), failAt);
        var tail := r.out[|g.out|..];
        NoWelcomes(tail, s);
        if m.sender !in st.sessions {
          assert n == [Welcome(m.sender)] + tail;
          assert n[1..] == tail;
        } else {
          assert n == tail;
        }
      } else {
        assert n == [];
      }
    } else {
      assert n == [];
    }
  }

  /** Over a whole batch a sender receives at most one welcome, and none if it
      was already in the map; a welcome that fails is not retried later,
      because the session was stored before the send. */
  lemma {:induction false} WelcomeAtMostOnce(st: State, msgs: seq<Message>, parse: Parser, failAt: Option<nat>, s: Sender)
    ensures var r := Run(st, msgs, parse, failAt);
      Welcomes(r.out[|st.out|..], s) + WelcomeBudget(r.sessions, s) <= WelcomeBudget(st.sessions, s)
    decreases |msgs|
  {
    if msgs != [] {
      var st1 := Step(st, msgs[0], parse, failAt);
      var r := Run(st1, msgs[1..], parse, failAt);
      StepWelcomes(st, msgs[0], parse, failAt, s);
      WelcomeAtMostOnce(st1, msgs[1..], parse, failAt, s);
      SuffixSplit(st.out, st1.out, r.out);
      WelcomesAppend(st1.out[|st.out|..], r.out[|st1.out|..], s);
    }
  }

  /** Without a fault, each sender of the batch that was not in the map gets
      exactly one welcome, and every other sender none. */
  lemma {:induction false} WelcomeExactlyOnce(st: State, msgs: seq<Message>, parse: Parser, s: Sender)
    requires !st.faulted
    ensures Welcomes(Run(st, msgs, parse, None).out[|st.out|..], s) ==
      (if s !in st.sessions && s in Senders(msgs) then 1 else 0)
    decreases |msgs|
  {
    if msgs != [] {
      var st1 := Step(st, msgs[0], parse, None);
      var r := Run(st1, msgs[1..], parse, None);
      WelcomeExactlyOnce(st1, msgs[1..], parse, s);
      SuffixSplit(st.out, st1.out, r.out);
      WelcomesAppend(st1.out[|st.out|..], r.out[|st1.out|..], s);
      StepWelcomes(st, msgs[0], parse, None, s);
      if msgs[0].sender == s && s !in st.sessions {
        FirstContact(st, msgs[0], parse, None);
      }
      SendersCons(msgs);
    }
  }

  // ---------------------------------------------------------------------
  // Commands and the language that reaches the pipeline

  /** The sender's entry after a language command: the given language, the
      welcome flag as it was (or set, for a new sender). */
  function LanguageSet(sessions: map<Sender, Session>, s: Sender, lang: string): Session {
    if s in sessions then sessions[s].(targetLanguage := lang) else Session(lang, true)
  }

  /** A command text ends the handling of its message: no pipeline runs for it.
      Without an argument it changes nothing beyond first contact; with one it
      stores the argument and confirms it. */
  lemma CommandStep(st: State, m: Message, parse: Parser, failAt: Option<nat>)
    requires !st.faulted && TextCommand(m, parse).Some?
    ensures var r := Step(st, m, parse, failAt);
      && (forall i :: |st.out| <= i < |r.out| ==> !r.out[i].Pipeline?)
      && (TextCommand(m, parse) == Some(MissingArgument) && m.sender in st.sessions ==> r == st)
      && (TextCommand(m, parse).value.SetLanguage? && failAt.None? ==>
            && r.sessions[m.sender] == LanguageSet(st.sessions, m.sender, TextCommand(m, parse).value.lang)
            && r.out[|r.out| - 1] == Confirm(m.sender, TextCommand(m, parse).value.lang))
  {
    var g := Greet(st, m.sender, failAt);
    if !g.faulted {
      assert Step(st, m, parse, failAt) == Handle(g, m, TextCommand(m, parse), failAt);
    }
  }

  /** An audio message whose text, if any, is not a command runs the pipeline
      exactly once, with the sender's language as it stands at that point. */
  lemma AudioUsesCurrentLanguage(st: State, m: Message, parse: Parser)
    requires !st.faulted && TextCommand(m, parse).None? && m.audio.Some?
    ensures var r := Step(st, m, parse, None);
      && |r.out| > |st.out|
      && r.out[|r.out| - 1] == Pipeline(m.sender, m.audio.value, LanguageOf(st.sessions, m.sender))
      && (forall i :: |st.out| <= i < |r.out| - 1 ==> !r.out[i].Pipeline?)
  {
    var g := Greet(st, m.sender, None);
    assert Step(st, m, parse, None) == Handle(g, m, TextCommand(m, parse), None);
  }

  /** A text that is not a command and comes without audio only ever causes
      the first-contact welcome. */
  lemma PlainTextIgnored(st: State, m: Message, parse: Parser, failAt: Option<nat>)
    requires !st.faulted && TextCommand(m, parse).None? && m.audio.None?
    ensures Step(st, m, parse, failAt) == Greet(st, m.sender, failAt)
  {
  }

  /** Messages that do not set a language for `s` leave the language `s`
      would get unchanged, whether or not a fault occurs. */
  lemma {:induction false} LanguageKeptWithoutCommand(st: State, msgs: seq<Message>, parse: Parser, failAt: Option<nat>, s: Sender)
    requires forall i :: 0 <= i < |msgs| ==> !SetsLanguage(msgs[i], s, parse)
    ensures LanguageOf(Run(st, msgs, parse, failAt).sessions, s) == LanguageOf(st.sessions, s)
    decreases |msgs|
  {
    if msgs != [] {
      var st1 := Step(st, msgs[0], parse, failAt);
      if !st.faulted {
        var g := Greet(st, msgs[0].sender, failAt);
        if !g.faulted {
          assert st1 == Handle(g, msgs[0], TextCommand(msgs[0], parse), failAt);
        }
      }
      LanguageKeptWithoutCommand(st1, msgs[1..], parse, failAt, s);
    }
  }

  /** A batch split around its `i`-th message. */
  lemma RunAround(st: State, msgs: seq<Message>, i: nat, parse: Parser, failAt: Option<nat>)
    requires i < |msgs|
    ensures Run(st, msgs, parse, failAt) ==
      Run(Step(Run(st, msgs[..i], parse, failAt), msgs[i], parse, failAt), msgs[i + 1..], parse, failAt)
  {
    var before := Run(st, msgs[..i], parse, failAt);
    assert Run(st, msgs, parse, failAt) == Run(before, msgs[i..], parse, failAt) by {
      assert msgs == msgs[..i] + msgs[i..];
      RunAppend(st, msgs[..i], msgs[i..], parse, failAt);
    }
    assert msgs[i..] == [msgs[i]] + msgs[i + 1..];
    RunCons(before, msgs[i], msgs[i + 1..], parse, failAt);
  }

  /** A fault-free step that sets `s`'s language stores the argument. */
  lemma StepSetsLanguage(st: State, m: Message, parse: Parser, s: Sender)
    requires !st.faulted && SetsLanguage(m, s, parse)
    ensures LanguageOf(Step(st, m, parse, None).sessions, s) == TextCommand(m, parse).value.lang
  {
    CommandStep(st, m, parse, None);
  }

  /** The messages after position `i` do not change `s`'s language when none
      of them sets it. */
  lemma LanguageKeptAfter(st: State, msgs: seq<Message>, i: nat, parse: Parser, failAt: Option<nat>, s: Sender)
    requires i < |msgs|
    requires forall j :: i < j < |msgs| ==> !SetsLanguage(msgs[j], s, parse)
    ensures LanguageOf(Run(st, msgs[i + 1..], parse, failAt).sessions, s) == LanguageOf(st.sessions, s)
  {
    var rest := msgs[i + 1..];
    forall j | 0 <= j < |rest| ensures !SetsLanguage(rest[j], s, parse) {
      assert rest[j] == msgs[i + 1 + j];
    }
    LanguageKeptWithoutCommand(st, rest, parse, failAt, s);
  }

  /** Without a fault, a sender's language after a batch is the argument of
      its last language command in the batch. */
  lemma LanguageIsLastCommand(st: State, msgs: seq<Message>, parse: Parser, i: nat, s: Sender)
    requires !st.faulted
    requires i < |msgs| && SetsLanguage(msgs[i], s, parse)
    requires forall j :: i < j < |msgs| ==> !SetsLanguage(msgs[j], s, parse)
    ensures LanguageOf(Run(st, msgs, parse, None).sessions, s) == TextCommand(msgs[i], parse).value.lang
  {
    var before := Run(st, msgs[..i], parse, None);
    var mid := Step(before, msgs[i], parse, None);
    RunAround(st, msgs, i, parse, None);
    StepSetsLanguage(before, msgs[i], parse, s);
    LanguageKeptAfter(mid, msgs, i, parse, None, s);
  }

  /** A language command earlier in the same batch decides the language of a
      later voice note from the same sender. */
  lemma EarlierCommandReachesPipeline(st: State, msgs: seq<Message>, parse: Parser, j: nat, i: nat, s: Sender)
    requires !st.faulted
    requires j < i < |msgs| && SetsLanguage(msgs[j], s, parse)
    requires forall x :: j < x < i ==> !SetsLanguage(msgs[x], s, parse)
    requires msgs[i].sender == s && TextCommand(msgs[i], parse).None? && msgs[i].audio.Some?
    ensures var r := Run(st, msgs[..i + 1], parse, None);
      |r.out| > 0 && r.out[|r.out| - 1] == Pipeline(s, msgs[i].audio.value, TextCommand(msgs[j], parse).value.lang)
  {
    var pre := msgs[..i];
    var before := Run(st, pre, parse, None);
    assert LanguageOf(before.sessions, s) == TextCommand(msgs[j], parse).value.lang by {
      forall x | j < x < |pre| ensures !SetsLanguage(pre[x], s, parse) {
        assert pre[x] == msgs[x];
      }
      LanguageIsLastCommand(st, pre, parse, j, s);
    }
    var r := Step(before, msgs[i], parse, None);
    assert Run(st, msgs[..i + 1], parse, None) == r by {
      RunSnoc(st, msgs, i, parse, None);
    }
    assert |r.out| > 0 && r.out[|r.out| - 1] == Pipeline(s, msgs[i].audio.value, LanguageOf(before.sessions, s)) by {
      AudioUsesCurrentLanguage(before, msgs[i], parse);
    }
  }

  // ---------------------------------------------------------------------
  // End-to-end scenarios, with the handler's own command parser

  /** A first voice note: welcome, then the pipeline into English. */
  lemma NewSenderVoiceNote(s: Sender, id: MediaId)
    ensures Run(Start(map[]), [Message(s, None, Some(id))], ParseCommand, None)
         == State(map[s := FirstSession], [Welcome(s), Pipeline(s, id, DefaultLanguage)], false)
  {
    RunOne(Start(map[]), Message(s, None, Some(id)), ParseCommand, None);
  }

  /** A first message that the parser reads as setting a language, then a
      voice note: welcome, confirmation, and the pipeline into that language. */
  lemma CommandThenAudio(s: Sender, txt: string, lang: string, id: MediaId, parse: Parser)
    requires parse(txt) == Some(SetLanguage(lang))
    ensures Run(Start(map[]), [Message(s, Some(txt), None), Message(s, None, Some(id))], parse, None).out
         == [Welcome(s), Confirm(s, lang), Pipeline(s, id, lang)]
  {
    var cmd := Message(s, Some(txt), None);
    var audio := Message(s, None, Some(id));
    var st0 := Start(map[]);
    var st1 := Step(st0, cmd, parse, None);
    assert st1.out == [Welcome(s), Confirm(s, lang)] && st1.sessions == map[s := Session(lang, true)] by {
      var g := Greet(st0, s, None);
      assert st1 == Handle(g, cmd, Some(SetLanguage(lang)), None);
    }
    var st2 := Step(st1, audio, parse, None);
    assert st2.out == st1.out + [Pipeline(s, id, lang)] by {
      assert st2 == Handle(st1, audio, None, None);
    }
    var msgs := [cmd, audio];
    assert Run(st0, msgs, parse, None) == st2 by {
      RunSnoc(st0, msgs, 1, parse, None);
      assert msgs[..1] == [cmd] && msgs[..2] == msgs;
      RunOne(st0, cmd, parse, None);
    }
  }

  /** The same with the handler's parser and the text `/translate_to <lang>`. */
  lemma CommandThenVoiceNote(s: Sender, lang: string, id: MediaId)
    requires lang != [] ==> !IsSpace(lang[0]) && !IsSpace(lang[|lang| - 1])
    ensures Run(Start(map[]), [Message(s, Some("/translate_to " + lang), None), Message(s, None, Some(id))], ParseCommand, None).out
         == [Welcome(s), Confirm(s, lang), Pipeline(s, id, lang)]
  {
    TranslateTo(lang);
    CommandThenAudio(s, "/translate_to " + lang, lang, id, ParseCommand);
  }

  // ---------------------------------------------------------------------
  // What the text calls post

  const WelcomeText := "Hi! Welcome to the Translator Bot \U{1F310}\n1\U{FE0F}\U{20E3} Send your target language using: /translate_to <Language>\n2\U{FE0F}\U{20E3} Then send your voice note in any language.\nThe bot will reply with translated audio in your chosen language."

  const ConfirmPrefix := "Target language set to "

  function ConfirmText(lang: string): (t: string)
    ensures |t| == |ConfirmPrefix| + |lang| + 2
    ensures t[|ConfirmPrefix|..|ConfirmPrefix| + |lang|] == lang
  {
    ConfirmPrefix + lang + " \U{2705}"
  }

  /** The text a welcome or a confirmation sends; the pipeline's reply is audio. */
  function NoticeText(a: Action): Option<string> {
    match a
    case Welcome(_) => Some(WelcomeText)
    case Confirm(_, lang) => Some(ConfirmText(lang))
    case Pipeline(_, _, _) => None
  }

  /** Welcomes and confirmations are never dropped by the send helper: their
      text is non-empty, even for an empty language, so a text payload goes out. */
  lemma NoticesAreSent(a: Action)
    requires !a.Pipeline?
    ensures var p := Outbound.SelectPayload(a.to, NoticeText(a), None);
      p.Some? && p.value.kind == "text" && p.value.to == a.to && p.value.text == NoticeText(a)
  {
    assert |NoticeText(a).value| > 0;
  }
}
