/** Capability negotiation
    (crates/rx11-core/src/protocol/capability.rs and protocol/handshake.rs). */
module Capabilities {
  import opened Bytes

  datatype Capability =
    | RequestResync | Incremental | IncrementalUplink | FlowControl
    | X11 | X11Recode | AudioForward | AudioPerApp

  const SUPPORTED: seq<Capability> :=
    [RequestResync, Incremental, IncrementalUplink, FlowControl, X11, X11Recode, AudioForward, AudioPerApp]

  function Name(c: Capability): string {
    match c
    case RequestResync => "request_resync"
    case Incremental => "incremental"
    case IncrementalUplink => "incremental_uplink"
    case FlowControl => "flow_control"
    case X11 => "x11"
    case X11Recode => "x11_recode"
    case AudioForward => "audio_forward"
    case AudioPerApp => "audio_per_app"
  }

  /** The kill switches of one endpoint. */
  datatype Switches = Switches(
    imageRecode: bool, audioForward: bool, audioPerApp: bool, flowControl: bool, incrementalUplink: bool)

  predicate Allows(s: Switches, c: Capability) {
    match c
    case X11Recode => s.imageRecode
    case AudioForward => s.audioForward
    case AudioPerApp => s.audioPerApp
    case FlowControl => s.flowControl
    case IncrementalUplink => s.incrementalUplink
    case _ => true
  }

  function Names(caps: seq<Capability>): seq<string> {
    seq(|caps|, i requires 0 <= i < |caps| => Name(caps[i]))
  }

  function Filter(p: Capability -> bool, caps: seq<Capability>): (r: seq<Capability>)
    ensures forall c :: c in r <==> c in caps && p(c)
  {
    if caps == [] then []
    else (if p(caps[0]) then [caps[0]] else []) + Filter(p, caps[1..])
  }

  /** The wire list advertised under the kill switches. */
  function AdvertisedFor(s: Switches): seq<string> {
    Names(Filter(c => Allows(s, c), SUPPORTED))
  }

  /** Intersection of two advertised lists; unknown names are ignored. */
  function Negotiate(client: seq<string>, server: seq<string>): set<Capability> {
    set c | c in SUPPORTED && Name(c) in client && Name(c) in server
  }

  function ToList(features: set<Capability>): seq<string> {
    Names(Filter(c => c in features, SUPPORTED))
  }

  function ParseIn(name: string, caps: seq<Capability>): Option<Capability> {
    if caps == [] then None
    else if Name(caps[0]) == name then Some(caps[0])
    else ParseIn(name, caps[1..])
  }

  function Parse(name: string): Option<Capability> { ParseIn(name, SUPPORTED) }

  /** No two capabilities share a wire name. */
  lemma NameInjective(a: Capability, b: Capability)
    requires Name(a) == Name(b)
    ensures a == b
  {
    assert "audio_forward"[6] == 'f' && "audio_per_app"[6] == 'p';
  }

  lemma AllSupported(c: Capability)
    ensures c in SUPPORTED
  {
    var i := match c
      case RequestResync => 0 case Incremental => 1 case IncrementalUplink => 2 case FlowControl => 3
      case X11 => 4 case X11Recode => 5 case AudioForward => 6 case AudioPerApp => 7;
    assert SUPPORTED[i] == c;
  }

  lemma {:induction false} ParseFinds(c: Capability, caps: seq<Capability>)
    requires c in caps
    ensures ParseIn(Name(c), caps) == Some(c)
  {
    if Name(caps[0]) == Name(c) {
      NameInjective(caps[0], c);
    } else {
      ParseFinds(c, caps[1..]);
    }
  }

  lemma {:induction false} ParseSound(name: string, caps: seq<Capability>)
    ensures ParseIn(name, caps).Some? ==> Name(ParseIn(name, caps).value) == name
  {
    if caps != [] && Name(caps[0]) != name {
      ParseSound(name, caps[1..]);
    }
  }

  /** A name parses to a capability exactly when it is that capability's name. */
  lemma ParseName(name: string, c: Capability)
    ensures Parse(name) == Some(c) <==> name == Name(c)
  {
    AllSupported(c);
    ParseFinds(c, SUPPORTED);
    ParseSound(name, SUPPORTED);
  }

  lemma NamesOf(caps: seq<Capability>, c: Capability)
    ensures Name(c) in Names(caps) <==> c in caps
  {
    if Name(c) in Names(caps) {
      var i :| 0 <= i < |caps| && Names(caps)[i] == Name(c);
      NameInjective(caps[i], c);
    }
    if c in caps {
      var i :| 0 <= i < |caps| && caps[i] == c;
      assert Names(caps)[i] == Name(c);
    }
  }

  /** THE agreement of the two ends. The client negotiates its own list against
      the server's echo, the server negotiated the client's list against its own:
      whatever the client's list holds, both compute the same features. */
  lemma EchoAgrees(client: seq<string>, server: seq<string>)
    ensures Negotiate(client, ToList(Negotiate(client, server))) == Negotiate(client, server)
  {
    var agreed := Negotiate(client, server);
    forall c: Capability
      ensures c in Negotiate(client, ToList(agreed)) <==> c in agreed
    {
      AllSupported(c);
      NamesOf(Filter(c => c in agreed, SUPPORTED), c);
    }
  }

  /** A capability is in force exactly when neither end switched it off. */
  lemma InForce(client: Switches, server: Switches, c: Capability)
    ensures c in Negotiate(AdvertisedFor(client), AdvertisedFor(server)) <==> Allows(client, c) && Allows(server, c)
  {
    AllSupported(c);
    NamesOf(Filter(c => Allows(client, c), SUPPORTED), c);
    NamesOf(Filter(c => Allows(server, c), SUPPORTED), c);
  }

  /** What two ends agree on, switch by switch: each gated capability exactly when both
      have its own switch on, and the others always. */
  lemma SwitchedExactly(client: Switches, server: Switches)
    ensures var agreed := Negotiate(AdvertisedFor(client), AdvertisedFor(server));
            && (X11Recode in agreed <==> client.imageRecode && server.imageRecode)
            && (AudioForward in agreed <==> client.audioForward && server.audioForward)
            && (AudioPerApp in agreed <==> client.audioPerApp && server.audioPerApp)
            && (FlowControl in agreed <==> client.flowControl && server.flowControl)
            && (IncrementalUplink in agreed <==> client.incrementalUplink && server.incrementalUplink)
            && RequestResync in agreed && Incremental in agreed && X11 in agreed
  {
    hide Negotiate, AdvertisedFor;
    InForce(client, server, X11Recode);
    InForce(client, server, AudioForward);
    InForce(client, server, AudioPerApp);
    InForce(client, server, FlowControl);
    InForce(client, server, IncrementalUplink);
    InForce(client, server, RequestResync);
    InForce(client, server, Incremental);
    InForce(client, server, X11);
  }
}
