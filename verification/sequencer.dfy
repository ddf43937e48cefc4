/** The login/request sequencer: event_connect, event_umode, event_join,
    event_mode and the two senders they call (send_login_command,
    send_xdcc_requests). What each event triggers depends only on whether a
    login command is configured and on the mode string. */
module Sequencer {
  import opened Common
  import opened Text
  import opened Login
  import opened Model

  /** User mode reported once the login is accepted. */
  const RegisteredMode: string := "+r"
  /** Channel mode granting voice, which with a login unlocks the requests. */
  const VoiceMode: string := "+v"
  /** User mode requested on every join. */
  const InvisibleMode: string := "+i"

  /** join_channels: one JOIN per configured channel, in order. */
  function JoinAll(channels: seq<string>): (acts: seq<Action>)
    ensures |acts| == |channels|
    ensures forall k :: 0 <= k < |channels| ==> acts[k] == JoinChannel(channels[k])
  {
    seq(|channels|, k requires 0 <= k < |channels| => JoinChannel(channels[k]))
  }

  /** The loop of send_xdcc_requests: one message per configured download, in
      array order. A failed irc_cmd_msg only logs, so every download gets its
      message. */
  function RequestAll(ds: seq<Download>): (acts: seq<Action>)
    ensures |acts| == |ds|
    ensures forall k :: 0 <= k < |ds| ==> acts[k] == XdccRequest(ds[k].botNick, ds[k].xdccCommand)
  {
    seq(|ds|, k requires 0 <= k < |ds| => XdccRequest(ds[k].botNick, ds[k].xdccCommand))
  }

  /** The request messages among `acts`, in order. */
  function Requests(acts: seq<Action>): (r: seq<Action>)
    ensures |r| <= |acts|
    ensures forall k :: 0 <= k < |r| ==> r[k].XdccRequest?
  {
    if |acts| == 0 then []
    else Requests(acts[..|acts| - 1]) + (if acts[|acts| - 1].XdccRequest? then [acts[|acts| - 1]] else [])
  }

  lemma {:induction false} RequestsAppend(a: seq<Action>, b: seq<Action>)
    ensures Requests(a + b) == Requests(a) + Requests(b)
    decreases |b|
  {
    if |b| == 0 {
      assert a + b == a;
    } else {
      var n := |b| - 1;
      assert (a + b)[..|a + b| - 1] == a + b[..n];
      RequestsAppend(a, b[..n]);
    }
  }

  lemma {:induction false} RequestsNone(a: seq<Action>)
    requires forall k :: 0 <= k < |a| ==> !a[k].XdccRequest?
    ensures Requests(a) == []
  {
    if |a| > 0 {
      RequestsNone(a[..|a| - 1]);
    }
  }

  lemma {:induction false} RequestsKeepAll(a: seq<Action>)
    requires forall k :: 0 <= k < |a| ==> a[k].XdccRequest?
    ensures Requests(a) == a
  {
    if |a| > 0 {
      RequestsKeepAll(a[..|a| - 1]);
    }
  }

  /** send_xdcc_requests: sends only while SENDED_FLAG is clear, then sets it. */
  function SendRequests(st: State): (r: Step)
    ensures r.state == st.(requestsSent := true)
    ensures st.requestsSent ==> r.actions == []
    ensures !st.requestsSent ==> Requests(r.actions) == r.actions == RequestAll(st.cfg.downloads)
  {
    if st.requestsSent then Step(st, [])
    else
      RequestsKeepAll(RequestAll(st.cfg.downloads));
      Step(st.(requestsSent := true), RequestAll(st.cfg.downloads))
  }

  /** event_connect: with a login command, trim it in place and send it as
      "/msg <first nine chars> <rest>" when it is long enough, sending nothing
      and carrying on otherwise; without one, join every channel. */
  function OnConnected(st: State): (r: Step)
    ensures st.cfg.login.None? ==> r == Step(st, JoinAll(st.cfg.channels))
    ensures st.cfg.login.Some? ==>
              var c := Trim(st.cfg.login.value, LoginBlanks);
              && r.state == st.(cfg := st.cfg.(login := Some(c)))
              && (|c| >= RecipientLength ==> r.actions == [SendLogin(c[..RecipientLength], c[RecipientLength..])])
              && (|c| < RecipientLength ==> r.actions == [])
  {
    match st.cfg.login
    case None => Step(st, JoinAll(st.cfg.channels))
    case Some(command) =>
      var trimmed := st.(cfg := st.cfg.(login := Some(Trim(command, LoginBlanks))));
      match SplitLogin(command)
      case None => Step(trimmed, [])
      case Some(m) =>
        var c := Trim(command, LoginBlanks);
        assert m.recipient == c[..RecipientLength] && m.body == c[RecipientLength..] by {
          assert c == m.recipient + m.body;
        }
        Step(trimmed, [SendLogin(m.recipient, m.body)])
  }

  /** event_umode: "+r" with a login configured joins the channels. */
  function OnUserMode(st: State, mode: string): (r: Step)
    ensures r.state == st
    ensures st.cfg.login.Some? && mode == RegisteredMode ==> r.actions == JoinAll(st.cfg.channels)
    ensures !(st.cfg.login.Some? && mode == RegisteredMode) ==> r.actions == []
  {
    if st.cfg.login.Some? && mode == RegisteredMode then Step(st, JoinAll(st.cfg.channels))
    else Step(st, [])
  }

  /** event_join: always asks for "+i"; without a login it then sends the
      requests. */
  function OnJoined(st: State): (r: Step)
    ensures |r.actions| > 0 && r.actions[0] == SetUserMode(InvisibleMode)
    ensures st.cfg.login.None? ==> r.state == st.(requestsSent := true)
    ensures st.cfg.login.None? && !st.requestsSent ==> r.actions[1..] == RequestAll(st.cfg.downloads)
    ensures st.cfg.login.None? && st.requestsSent ==> r.actions == [SetUserMode(InvisibleMode)]
    ensures st.cfg.login.Some? ==> r == Step(st, [SetUserMode(InvisibleMode)])
  {
    var s := if st.cfg.login.None? then SendRequests(st) else Step(st, []);
    Step(s.state, [SetUserMode(InvisibleMode)] + s.actions)
  }

  /** event_mode: with a login configured, a channel mode event whose second
      parameter is "+v" sends the requests. */
  function OnChannelMode(st: State, params: seq<string>): (r: Step)
    ensures st.cfg.login.Some? && |params| > 1 && params[1] == VoiceMode ==> r == SendRequests(st)
    ensures !(st.cfg.login.Some? && |params| > 1 && params[1] == VoiceMode) ==> r == Step(st, [])
  {
    if st.cfg.login.Some? && |params| > 1 && params[1] == VoiceMode then SendRequests(st)
    else Step(st, [])
  }
}
