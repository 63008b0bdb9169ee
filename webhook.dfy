/** The webhook endpoint as the running process sees it: one object holding
    the session map, updated in place by every POST. */
module Webhook {
  import opened Basics
  import opened PyStr
  import opened Commands
  import opened Dispatch
  import Verification

  /** A request to the endpoint: the GET handshake or a POSTed event. */
  datatype Request =
    | Get(mode: Option<string>, token: Option<string>, challenge: Option<string>)
    | Post(entries: seq<Entry>)

  class Bot {
    /** `user_sessions`: sender id to session, kept for the life of the process. */
    var sessions: map<Sender, Session>

    constructor ()
      ensures sessions == map[]
    {
      sessions := map[];
    }

    /** One message of a POST: first contact, then the command check, then
        the voice note. `out` holds the calls made so far in this request;
        `faulted` reports that the call numbered `failAt` raised. */
    method HandleMessage(msg: Message, failAt: Option<nat>, out: seq<Action>) returns (sent: seq<Action>, faulted: bool)
      modifies this
      ensures State(sessions, sent, faulted) == Step(State(old(sessions), out, false), msg, ParseCommand, failAt)
    {
      ghost var st := State(sessions, out, false);
      sent, faulted := out, false;
      var from := msg.sender;
      if from !in sessions {
        sessions := sessions[from := FirstSession];
        if failAt == Some(|sent|) {
          faulted := true;
          return;
        }
        sent := sent + [Welcome(from)];
      }
      ghost var g := State(sessions, sent, false);
      assert g == Greet(st, from, failAt);
      if msg.text.Some? {
        var txt := msg.text.value;
        if IsCommand(txt) {
          var parts := SplitOnce(txt, ' ');
          if |parts| == 2 {
            var lang := Strip(parts[1]);
            sessions := sessions[from := sessions[from].(targetLanguage := lang)];
            if failAt == Some(|sent|) {
              faulted := true;
              return;
            }
            sent := sent + [Confirm(from, lang)];
          }
          return;
        }
      }
      assert TextCommand(msg, ParseCommand).None?;
      if msg.audio.Some? {
        var lang := sessions[from].targetLanguage;
        if failAt == Some(|sent|) {
          faulted := true;
          return;
        }
        sent := sent + [Pipeline(from, msg.audio.value, lang)];
      }
    }

    /** The innermost loop: the messages of one change, in order, until a
        call raises. */
    method HandleMessages(messages: seq<Message>, failAt: Option<nat>, out: seq<Action>) returns (sent: seq<Action>, faulted: bool)
      modifies this
      ensures State(sessions, sent, faulted) == Run(State(old(sessions), out, false), messages, ParseCommand, failAt)
    {
      ghost var goal := Run(State(sessions, out, false), messages, ParseCommand, failAt);
      sent, faulted := out, false;
      for k := 0 to |messages|
        invariant Run(State(sessions, sent, false), messages[k..], ParseCommand, failAt) == goal
      {
        ghost var before := State(sessions, sent, false);
        sent, faulted := HandleMessage(messages[k], failAt, sent);
        RunResumes(before, messages, k, ParseCommand, failAt);
        if faulted {
          return;
        }
      }
    }

    /** The middle loop: the changes of one entry, in order, until a call
        raises. */
    method HandleChanges(changes: seq<Change>, failAt: Option<nat>, out: seq<Action>) returns (sent: seq<Action>, faulted: bool)
      modifies this
      ensures State(sessions, sent, faulted) == Run(State(old(sessions), out, false), ChangeMessages(changes), ParseCommand, failAt)
    {
      ghost var goal := Run(State(sessions, out, false), ChangeMessages(changes), ParseCommand, failAt);
      sent, faulted := out, false;
      assert changes[0..] == changes;
      for j := 0 to |changes|
        invariant Run(State(sessions, sent, false), ChangeMessages(changes[j..]), ParseCommand, failAt) == goal
      {
        ghost var before := State(sessions, sent, false);
        ghost var after := ChangeMessages(changes[j + 1..]);
        assert ChangeMessages(changes[j..]) == changes[j].messages + after by {
          assert changes[j..][1..] == changes[j + 1..];
        }
        sent, faulted := HandleMessages(changes[j].messages, failAt, sent);
        RunAppend(before, changes[j].messages, after, ParseCommand, failAt);
        if faulted {
          return;
        }
      }
    }

    /** The POST branch: every message of every change of every entry, in
        order; the first call that raises ends the whole batch with status
        500, keeping the session updates made before it. */
    method HandleEvent(entries: seq<Entry>, failAt: Option<nat>) returns (reply: Reply, sent: seq<Action>)
      modifies this
      ensures var r := Run(Start(old(sessions)), EventMessages(entries), ParseCommand, failAt);
        sessions == r.sessions && sent == r.out && reply == BatchReply(r)
    {
      ghost var goal := Run(Start(sessions), EventMessages(entries), ParseCommand, failAt);
      sent := [];
      for i := 0 to |entries|
        invariant Run(State(sessions, sent, false), EventMessages(entries[i..]), ParseCommand, failAt) == goal
      {
        ghost var before := State(sessions, sent, false);
        ghost var after := EventMessages(entries[i + 1..]);
        assert EventMessages(entries[i..]) == ChangeMessages(entries[i].changes) + after by {
          assert entries[i..][1..] == entries[i + 1..];
        }
        var faulted;
        sent, faulted := HandleChanges(entries[i].changes, failAt, sent);
        RunAppend(before, ChangeMessages(entries[i].changes), after, ParseCommand, failAt);
        if faulted {
          reply := Reply(Some("ERROR"), 500);
          return;
        }
      }
      reply := Reply(Some("EVENT_RECEIVED"), 200);
    }

    /** The endpoint: GET answers the handshake and changes nothing; POST
        handles the event. */
    method Handle(req: Request, failAt: Option<nat>) returns (reply: Reply, sent: seq<Action>)
      modifies this
      ensures req.Get? ==>
        reply == Verification.Verify(req.mode, req.token, req.challenge) && sent == [] && sessions == old(sessions)
      ensures req.Post? ==>
        var r := Run(Start(old(sessions)), EventMessages(req.entries), ParseCommand, failAt);
        sessions == r.sessions && sent == r.out && reply == BatchReply(r)
    {
      match req
      case Get(mode, token, challenge) =>
        reply, sent := Verification.Verify(mode, token, challenge), [];
      case Post(entries) =>
        reply, sent := HandleEvent(entries, failAt);
    }
  }
}
