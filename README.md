# WhatsApp voice-translator webhook: a verified model of its decision layer

The bot is a single Flask endpoint, `/webhook`, in `main.py`. This project
models the decisions that endpoint makes and proves properties about them.

- **Subscription handshake (GET).** The bot returns the challenge with
  status 200 only when `hub.mode` is `subscribe` and `hub.verify_token` is
  the fixed token. Any other request gets `Verification failed` with status
  403 (module `Verification`).
- **Per-sender session map.** `user_sessions` maps a sender to its target
  language and its welcome flag. A sender's entry is created on first
  contact, changed by a language command, and never removed. The map is the
  field `sessions` of class `Webhook.Bot`, and the methods update it in place.
- **The `/translate_to` command (module `Commands`).**
  - The command prefix matches whatever its case.
  - The text is split at the first space.
  - The argument is stripped of whitespace and stored in its original case.
    It may be empty.
  - A command without a space is consumed and does nothing.
  - The Python string operations involved (`lower`, `startswith`,
    `split(" ", 1)`, `strip`) are in module `PyStr`.
- **The POST batch (modules `Dispatch` and `Webhook`).** Messages are
  handled in entry → change → message order. Each message can cause three
  outbound actions:
  - `Welcome` on first contact;
  - `Confirm(lang)` for a command with an argument;
  - `Pipeline(media, lang)` for a voice note: one opaque step that covers
    the media fetch, transcription, translation, speech synthesis and the
    audio reply.

  The first external call that raises ends the batch with `ERROR`/500.
  Session changes made before it are kept.
- **The payload choice of `send_whatsapp_message` (module `Outbound`).** A
  non-empty text is sent as text. Otherwise non-empty audio is sent as
  audio with its MIME type. Otherwise nothing is posted.

## How the model is built

Faults are a parameter `failAt: Option<nat>`: the number, counted from zero
over the request, of the external call that raises. `None` means no call
raises. Every call before the failing one went through and left one action
in the output, so the index of the next call is the length of the output.
Varying `failAt` covers every external call at which the original can throw.

`Dispatch.Step` and `Dispatch.Run` specify one message and a whole message
list as functions over `State(sessions, out, faulted)`. The class
`Webhook.Bot` has one method per loop of the handler:
- `HandleMessage` for the loop body;
- `HandleMessages` for the loop over a change's messages;
- `HandleChanges` for the loop over an entry's changes;
- `HandleEvent` for the loop over the entries.

Each method is proved to end in exactly the state `Run` describes, with
`Run`'s properties proved as lemmas. `continue` becomes an early `return`
from `HandleMessage`.

The lemmas in `Dispatch` take the command classifier as a parameter
(`Parser`), so they hold for any classifier. The class instantiates it with
`Commands.ParseCommand`. The end-to-end lemmas `NewSenderVoiceNote` and
`CommandThenVoiceNote` use `ParseCommand` directly.

## Model

| member | source | states |
|---|---|---|
| Verification.Verify | main.py:80-86 | status 200 exactly when mode is `subscribe` and the token is the configured one; then the body is the challenge, otherwise the reply is `Verification failed` with 403 |
| Verification.OnlyTheConfiguredTokenPasses | main.py:84-86 | a missing mode or token, another mode or another token is rejected with 403, whatever the challenge |
| Verification.ChallengeDoesNotDecide | main.py:84-85 | the challenge never influences the status, only the accepted body |
| Outbound.SelectPayload | main.py:22-37 | nothing is sent exactly when neither text nor audio is truthy; a payload is addressed to the recipient with one body matching its type; truthy text wins; otherwise audio goes with the given MIME type |
| Outbound.TextWinsOverAudio | main.py:29-31 | audio beside a non-empty text is ignored |
| Outbound.EmptyTextFallsBackToAudio | main.py:22-35 | an empty text counts as absent, so the audio is sent, with `audio/mpeg` by default |
| PyStr.LowerChar | main.py:111 | ASCII capitals map to their small letters, every other character is kept |
| PyStr.Lower | main.py:111 | same length, lower-cased character by character |
| PyStr.IndexOf | main.py:112 | absent exactly when the character does not occur; otherwise the position of its first occurrence |
| PyStr.SplitOnce | main.py:112 | one part (the whole text) without a separator; two parts exactly when it occurs, the first free of it and the parts rejoining to the text |
| PyStr.TrimStart | main.py:114 | a suffix of the text whose dropped prefix is whitespace and which does not start with whitespace |
| PyStr.TrimEnd | main.py:114 | a prefix of the text whose dropped suffix is whitespace and which does not end with whitespace |
| PyStr.IsSpace | main.py:114 | the characters `strip()` removes; on ASCII exactly space, tab, line feed, vertical tab, form feed, carriage return and the four separators 0x1C-0x1F; never a letter, digit, `/` or `_` |
| PyStr.StartsWith | main.py:111 | true exactly when the prefix is no longer than the text and agrees with it character by character |
| PyStr.Strip | main.py:114 | the longest slice of the text with no whitespace at either end: everything dropped before and after it is whitespace; empty exactly when the text is all whitespace |
| PyStr.StripTrimmed | main.py:114 | a text without whitespace at its ends is its own strip |
| PyStr.StripIdempotent | main.py:114 | stripping twice is stripping once |
| PyStr.TrimStartPadding | main.py:114 | leading whitespace is removed and nothing else |
| PyStr.TrimEndPadding | main.py:114 | trailing whitespace is removed and nothing else |
| PyStr.StripPadding | main.py:114 | whitespace padding on both sides is removed; inner text, spaces included, is kept |
| Commands.IsCommand | main.py:111 | a text is a command exactly when it has at least thirteen characters and those, lower-cased, are `/translate_to`; nothing after them matters |
| Commands.ParseCommand | main.py:109-117 | a text is a command exactly when its lower-cased form starts with `/translate_to`; it carries no argument exactly when it is a command without a space |
| Commands.CommandIgnoresCase | main.py:111 | the command test compares the lower-cased first thirteen characters with the prefix, and nothing else |
| Commands.CommandWithArgument | main.py:112-114 | after a space-free command word, the argument is the stripped rest after the first space, in its original case |
| Commands.UpperCaseCommand | main.py:111-114 | `/TRANSLATE_TO French` is a command and stores `French` with its case |
| Commands.PaddedArgument | main.py:112-114 | whitespace around the argument is dropped |
| Commands.TranslateTo | main.py:111-114 | `/translate_to <Language>` sets that language |
| Commands.EmptyArgument | main.py:112-114 | `/translate_to ` followed only by whitespace sets the empty language |
| Commands.CommandWithoutSpace | main.py:111-113 | the command word followed by anything without a space is a command with no argument |
| Commands.NoSlashNoCommand | main.py:111 | a text not starting with `/` is never a command |
| Dispatch.ChangeMessages | main.py:91-94 | the messages of an entry's changes: every message of every change is visited, and no other |
| Dispatch.EventMessages | main.py:90-94 | the messages of an event: every message of every entry is visited, and no other |
| Dispatch.ChangeMessagesAppend | main.py:91-94 | changes are visited as consecutive blocks, in order |
| Dispatch.EventMessagesAppend | main.py:90-94 | entries are visited as consecutive blocks, in order |
| Dispatch.Greet | main.py:98-106 | a known sender changes nothing; a new one gets the default entry stored before the welcome call, which is recorded unless it raises |
| Dispatch.Handle | main.py:109-141 | at most one more call, to the sender and never a welcome; only the sender's entry may change and its welcome flag stays; a command emits no pipeline; a command without argument, or a plain text without audio, changes nothing; an argument is stored even when its confirmation raises; otherwise a voice note runs the pipeline with the stored language |
| Dispatch.Step | main.py:95-141 | a faulted state is left alone; no fault without a failing call; at most two calls appended to the output; the sender is in the map afterwards and no other sender's entry changes |
| Dispatch.Run | main.py:89-146 | a faulted state is left alone; no fault without a failing call; the calls made so far are kept as a prefix |
| Dispatch.BatchReply | main.py:143-146 | 200 exactly when nothing raised, 500 exactly when something did |
| Dispatch.RunAppend | main.py:90-94 | handling two message lists in turn is handling their concatenation |
| Dispatch.RunCons | main.py:94 | a list is its first message followed by the rest |
| Dispatch.RunResumes | main.py:94-141 | after message `k` the batch has either stopped at a fault or goes on with message `k + 1` |
| Dispatch.RunOne | main.py:94 | a one-message list is one step |
| Dispatch.RunSnoc | main.py:94 | the state after `i + 1` messages is one step past the state after `i` |
| Dispatch.RunAround | main.py:94 | a batch splits into the messages before `i`, message `i`, and the rest |
| Dispatch.FaultStopsRemaining | main.py:89-146 | once a message has raised, later messages are never looked at |
| Dispatch.StepFaultTruncates | main.py:95-141 | a fault at call `k` of one message keeps exactly the calls before `k` of the fault-free handling |
| Dispatch.FaultTruncates | main.py:89-146 | a fault at call `k` of a batch happens exactly when the fault-free batch makes more than `k` calls; the first `k` calls are delivered and nothing after them; a later `k` changes nothing |
| Dispatch.SessionKeys | main.py:98-99 | without a fault the map gains exactly the batch's senders |
| Dispatch.RunKeepsWelcomed | main.py:98-115 | every entry's welcome flag stays set, since entries are created with it and updates keep it |
| Dispatch.SendersCons | main.py:95 | the senders of a list are its first sender and the senders of the rest |
| Dispatch.FirstContact | main.py:98-106 | a new sender's first call is its welcome, it gets no other welcome, and its entry is English (or the language it just set) with the flag set |
| Dispatch.KnownSenderNotWelcomed | main.py:98 | a sender already in the map gets no welcome |
| Dispatch.StepWelcomes | main.py:98-106 | one message sends a sender at most the one welcome it is still owed |
| Dispatch.WelcomeAtMostOnce | main.py:90-106 | over a batch, with or without a fault, a sender gets at most one welcome and none if it was known; a failed welcome is not retried |
| Dispatch.WelcomeExactlyOnce | main.py:90-106 | without a fault, every new sender of the batch gets exactly one welcome and every other sender none |
| Dispatch.CommandStep | main.py:109-117 | a command emits no pipeline; without an argument it changes nothing for a known sender; with one it stores the argument and ends with the confirmation |
| Dispatch.AudioUsesCurrentLanguage | main.py:120-141 | a voice note without a command ends with one pipeline to the sender, using the language stored at that point, and no other pipeline |
| Dispatch.PlainTextIgnored | main.py:109-120 | a text that is not a command, without audio, causes nothing beyond first contact |
| Dispatch.LanguageKeptWithoutCommand | main.py:90-141 | messages that set no language for a sender keep that sender's language, whether or not a fault occurs |
| Dispatch.StepSetsLanguage | main.py:115 | a language command stores its argument as the sender's language |
| Dispatch.LanguageKeptAfter | main.py:90-141 | messages after position `i` that set no language for a sender keep its language |
| Dispatch.LanguageIsLastCommand | main.py:90-141 | without a fault, a sender's language after the batch is the argument of its last language command |
| Dispatch.EarlierCommandReachesPipeline | main.py:90-141 | a language command earlier in the batch decides the language of a later voice note of that sender |
| Dispatch.NewSenderVoiceNote | main.py:95-141 | a new sender's voice note yields a welcome, then the pipeline into English |
| Dispatch.CommandThenAudio | main.py:95-141 | a new sender's language command then voice note yields a welcome, the confirmation, and the pipeline into that language |
| Dispatch.CommandThenVoiceNote | main.py:95-141 | the same with the text `/translate_to <lang>` and the handler's own parser |
| Dispatch.ConfirmText | main.py:116 | the confirmation text contains the language right after its fixed prefix |
| Dispatch.NoticesAreSent | main.py:100-116 | a welcome or a confirmation always produces a text payload, even for an empty language |
| Webhook.Bot.constructor | main.py:19 | the process starts with an empty session map |
| Webhook.Bot.HandleMessage | main.py:95-141 | the new map, the calls made and the fault flag are exactly `Step` of the old map |
| Webhook.Bot.HandleMessages | main.py:94-141 | handling a change's messages in order ends exactly in `Run` of the old map |
| Webhook.Bot.HandleChanges | main.py:91-141 | handling an entry's changes in order ends exactly in `Run` over their messages |
| Webhook.Bot.HandleEvent | main.py:88-146 | the POST branch ends with the map, the calls and the status `Run` gives for all messages of the event in order |
| Webhook.Bot.Handle | main.py:76-146 | GET answers the handshake and changes nothing; POST behaves as `HandleEvent` |

## Left out

- HTTP and Flask routing, `request.json` and `app.run` are left out. Requests arrive already parsed as `Webhook.Request`.
- Payloads missing `from`, `text.body` or `audio.id` raise a `KeyError` in the original. That is not modelled: a message is `Message(sender, text, audio)`. A missing `entry`, `changes`, `value` or `messages` is an empty list.
- Each of the media fetch, transcription (with the pydub WAV conversion), translation, speech synthesis and audio send can raise. Together they form one `Pipeline` action and one call index. Their order, the prompt text and the voice are not modelled. Nor is whether the synthesized audio is empty, in which case the send helper posts nothing.
- The outbound HTTP posts, the bearer tokens and the base64 encoding of audio are left out. `Outbound.SelectPayload` carries raw bytes.
- Environment configuration and the port binding are left out.
- Logging of the exception is left out.
- Concurrent requests racing on `user_sessions` are left out, because the model is sequential.
- `Dispatch.NoticeText` covers the exact welcome and confirmation texts only through `ConfirmText` containing the language. The welcome text is a constant and nothing is proved about its wording.
- PyStr.Lower: only ASCII letters are lower-cased. For the prefix test this is exact, because no non-ASCII character lowers to a character of `/translate_to`.
- Verification.Verify: an accepted request without `hub.challenge` yields a reply with an absent body. What Flask then makes of a `None` view result is not modelled.
- The three nested loops are split into three methods of `Webhook.Bot`, one per loop, so each loop carries its own invariant. The order of handling and the abort on the first fault are unchanged.
- The model follows the code where it is looser than the command form the welcome text documents (`/translate_to <Language>`, main.py:102): a command needs only to start with `/translate_to`. So `/translate_tox y` sets `y` (`CommandWithArgument`), and `/translate_to ` followed by whitespace sets the empty language (`EmptyArgument`).
- With both text and audio given, the send helper sends the text (`TextWinsOverAudio`).
- The entry of a new sender is stored before the welcome is sent, so a welcome whose send raises is never retried: a sender gets at most one welcome (`WelcomeAtMostOnce`), and exactly one when nothing raises (`WelcomeExactlyOnce`).
- A body that is not a JSON object makes `data.get` raise before any message is handled, answering 500 with no call made. Requests are parsed values here, so that path is not modelled.
