/** What each end takes away from the handshake
    (crates/rx11-core/src/protocol/handshake.rs, crates/rx11-core/src/compress.rs). */
module Handshake {
  import opened Bytes
  import opened Capabilities

  datatype Algo = ZstdStream | Zstd | Lz4 | Zlib

  /** Every algorithm, most preferred first. */
  const ALL: seq<Algo> := [ZstdStream, Zstd, Lz4, Zlib]

  /** The first of the preferences that both lists hold. */
  function PickAlgo(client: seq<Algo>, server: seq<Algo>, preferences: seq<Algo>): Option<Algo> {
    if preferences == [] then None
    else if preferences[0] in client && preferences[0] in server then Some(preferences[0])
    else PickAlgo(client, server, preferences[1..])
  }

  /** The choice is supported by both ends and nothing preferred to it is; there is
      none exactly when the ends share none. */
  lemma {:induction false} PickBest(client: seq<Algo>, server: seq<Algo>, preferences: seq<Algo>)
    ensures var r := PickAlgo(client, server, preferences);
            && (r == None <==> forall a :: a in preferences ==> a !in client || a !in server)
            && (r.Some? ==>
                  && r.value in client && r.value in server
                  && exists i :: 0 <= i < |preferences| && preferences[i] == r.value
                       && forall k :: 0 <= k < i ==> preferences[k] !in client || preferences[k] !in server)
  {
    if preferences != [] && (preferences[0] !in client || preferences[0] !in server) {
      var others := preferences[1..];
      PickBest(client, server, others);
      assert forall a :: a in preferences <==> a == preferences[0] || a in others;
      var r := PickAlgo(client, server, others);
      if r.Some? {
        var i :| 0 <= i < |others| && others[i] == r.value
                 && forall k :: 0 <= k < i ==> others[k] !in client || others[k] !in server;
        assert preferences[i + 1] == r.value;
        assert forall k :: 0 <= k < i + 1 && k > 0 ==> preferences[k] == others[k - 1];
      }
    }
  }

  datatype Hello = Hello(algos: seq<Algo>, capabilities: seq<string>)

  datatype HelloAck = HelloAck(compression: Option<Algo>, capabilities: seq<string>)

  /** What an end builds its plane from. */
  datatype Agreed = Agreed(compression: Option<Algo>, features: set<Capability>)

  /** The server chooses, keeps its choice and echoes it. */
  function ServerSide(hello: Hello, capabilities: seq<string>): (Agreed, HelloAck) {
    var compression := PickAlgo(hello.algos, ALL, ALL);
    var features := Negotiate(hello.capabilities, capabilities);
    (Agreed(compression, features), HelloAck(compression, ToList(features)))
  }

  /** The client takes the echoed algorithm and intersects the echoed list with its
      own once more. */
  function ClientSide(hello: Hello, ack: HelloAck): Agreed {
    Agreed(ack.compression, Negotiate(hello.capabilities, ack.capabilities))
  }

  /** THE handshake law: both ends come away with the same features and the same
      algorithm, the most preferred one the client offered, or none when it offered
      none. */
  lemma BothAgree(hello: Hello, capabilities: seq<string>)
    ensures var (server, ack) := ServerSide(hello, capabilities);
            var client := ClientSide(hello, ack);
            && client == server
            && (server.compression == None <==> forall a :: a in ALL ==> a !in hello.algos)
            && (server.compression.Some? ==>
                  && server.compression.value in hello.algos
                  && exists i :: 0 <= i < |ALL| && ALL[i] == server.compression.value
                       && forall k :: 0 <= k < i ==> ALL[k] !in hello.algos)
  {
    EchoAgrees(hello.capabilities, capabilities);
    PickBest(hello.algos, ALL, ALL);
  }

  /** The streaming algorithm when the client offers it, else plain zstd, else lz4, else
      zlib, else none. */
  function Preferred(algos: seq<Algo>): Option<Algo> {
    if ZstdStream in algos then Some(ZstdStream)
    else if Zstd in algos then Some(Zstd)
    else if Lz4 in algos then Some(Lz4)
    else if Zlib in algos then Some(Zlib)
    else None
  }

  lemma PickPreferred(algos: seq<Algo>)
    ensures PickAlgo(algos, ALL, ALL) == Preferred(algos)
  {
    hide PickAlgo;
    PickFirst(algos, ZstdStream, [Zstd, Lz4, Zlib]);
    PickFirst(algos, Zstd, [Lz4, Zlib]);
    PickFirst(algos, Lz4, [Zlib]);
    PickFirst(algos, Zlib, []);
    assert [ZstdStream] + [Zstd, Lz4, Zlib] == ALL && [Zstd] + [Lz4, Zlib] == [Zstd, Lz4, Zlib];
    assert [Lz4] + [Zlib] == [Lz4, Zlib] && [Zlib] + [] == [Zlib];
    PickBest(algos, ALL, []);
  }

  /** The choice, algorithm by algorithm, at both ends. */
  lemma AlgorithmExactly(hello: Hello, capabilities: seq<string>)
    ensures var (server, ack) := ServerSide(hello, capabilities);
            server.compression == Preferred(hello.algos) && ClientSide(hello, ack).compression == Preferred(hello.algos)
  {
    hide PickAlgo, Negotiate, Preferred, ToList;
    PickPreferred(hello.algos);
  }

  lemma PickFirst(client: seq<Algo>, a: Algo, others: seq<Algo>)
    ensures PickAlgo(client, ALL, [a] + others) == if a in client then Some(a) else PickAlgo(client, ALL, others)
  {
    assert ([a] + others)[1..] == others;
    var i := match a case ZstdStream => 0 case Zstd => 1 case Lz4 => 2 case Zlib => 3;
    assert ALL[i] == a;
  }
}
