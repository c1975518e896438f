/**
  The subscriber list of the broadcast server: accepting a client appends it,
  every write first prunes the clients that are no longer connected and then
  appends the bytes to each remaining client's stream, and disposing the
  server disposes every client.

  A client is a record: whether it reports itself connected (the network
  clears this flag, see `Disconnect`; a disposed `TcpClient` reports false),
  whether it has been disposed, and the bytes written to its stream so far. The list holds
  each connection once, so updating the record in the list is updating the
  connection. A client that pruning disposes and removes from the list is
  kept, as disposed, in the connector's `dropped` log.
*/
module Subscribers {
  import opened Common

  /** One `TcpClient` of the list. */
  datatype Client = Client(connected: bool, disposed: bool, log: seq<byte>)

  /** A connection as `EndAcceptTcpClient` returns it: connected, live, nothing written yet. */
  const Accepted: Client := Client(true, false, [])

  /** `GetStream().Write(buffer)`: the bytes go to the end of the stream, unframed. */
  function WriteTo(c: Client, buffer: seq<byte>): (r: Client)
    ensures r.connected == c.connected && r.disposed == c.disposed
    ensures |r.log| == |c.log| + |buffer| && r.log[..|c.log|] == c.log && r.log[|c.log|..] == buffer
  {
    c.(log := c.log + buffer)
  }

  /**
    `Dispose()` on one client. A disposed `TcpClient` has no socket any more,
    so its `Connected` reads false from then on; its stream keeps what it
    was sent.
  */
  function DisposeOf(c: Client): (r: Client)
    ensures r.disposed && !r.connected && r.log == c.log
  {
    c.(disposed := true, connected := false)
  }

  /** The clients of `s` that are still connected, in their order in `s`. */
  function ConnectedOnly(s: seq<Client>): (r: seq<Client>)
    ensures |r| <= |s|
  {
    if s == [] then []
    else ConnectedOnly(s[..|s| - 1]) + (if s[|s| - 1].connected then [s[|s| - 1]] else [])
  }

  /** The clients of `s` that are no longer connected, in their order in `s`, once disposed. */
  function DisposedDisconnected(s: seq<Client>): (r: seq<Client>)
    ensures |r| <= |s|
  {
    if s == [] then []
    else DisposedDisconnected(s[..|s| - 1]) + (if s[|s| - 1].connected then [] else [DisposeOf(s[|s| - 1])])
  }

  /** Every client of `s` with `buffer` written to its stream. */
  function WrittenTo(s: seq<Client>, buffer: seq<byte>): (r: seq<Client>)
    ensures |r| == |s|
  {
    seq(|s|, j requires 0 <= j < |s| => WriteTo(s[j], buffer))
  }

  /** Every client of `s`, disposed. */
  function AllDisposed(s: seq<Client>): (r: seq<Client>)
    ensures |r| == |s|
  {
    seq(|s|, j requires 0 <= j < |s| => DisposeOf(s[j]))
  }

  /** Every client of `s` is still connected. */
  ghost predicate AllConnected(s: seq<Client>)
  {
    forall j :: 0 <= j < |s| ==> s[j].connected
  }

  /** No client of `s` has been disposed. */
  ghost predicate NoneDisposed(s: seq<Client>)
  {
    forall j :: 0 <= j < |s| ==> !s[j].disposed
  }

  /** Every disposed client of `s` reads as not connected. */
  ghost predicate DisposedAreDisconnected(s: seq<Client>)
  {
    forall j :: 0 <= j < |s| && s[j].disposed ==> !s[j].connected
  }

  /** Every client of `s` is disposed and disconnected. */
  ghost predicate AllDisposedDisconnected(s: seq<Client>)
  {
    forall j :: 0 <= j < |s| ==> s[j].disposed && !s[j].connected
  }

  /** Both filters grow by the inspected client when one more client of `s` is inspected. */
  lemma FiltersSnoc(s: seq<Client>, k: nat)
    requires k < |s|
    ensures ConnectedOnly(s[..k + 1]) == ConnectedOnly(s[..k]) + (if s[k].connected then [s[k]] else [])
    ensures DisposedDisconnected(s[..k + 1]) ==
            DisposedDisconnected(s[..k]) + (if s[k].connected then [] else [DisposeOf(s[k])])
  {
    assert s[..k + 1][..k] == s[..k];
  }

  /**
    Pruning splits the list: the kept clients are all connected, the removed
    ones are all disposed and disconnected, and together they account for
    every client. A list whose disposed clients read as disconnected keeps
    no disposed client.
  */
  lemma {:induction false} PruneSplits(s: seq<Client>)
    ensures AllConnected(ConnectedOnly(s))
    ensures AllDisposedDisconnected(DisposedDisconnected(s))
    ensures |ConnectedOnly(s)| + |DisposedDisconnected(s)| == |s|
    ensures DisposedAreDisconnected(s) ==> NoneDisposed(ConnectedOnly(s))
  {
    if s != [] {
      var n := |s| - 1;
      PruneSplits(s[..n]);
      assert DisposedAreDisconnected(s) ==> DisposedAreDisconnected(s[..n]) by {
        if DisposedAreDisconnected(s) {
          forall j | 0 <= j < n && s[..n][j].disposed ensures !s[..n][j].connected {
            assert s[..n][j] == s[j];
          }
        }
      }
    }
  }

  /** A connected client is kept by pruning, in the place given by the connected clients before it. */
  lemma {:induction false} PruneKeeps(s: seq<Client>, j: nat)
    requires j < |s| && s[j].connected
    ensures |ConnectedOnly(s[..j])| < |ConnectedOnly(s)|
    ensures ConnectedOnly(s)[|ConnectedOnly(s[..j])|] == s[j]
  {
    var n := |s| - 1;
    if j == n {
      assert s[..n] == s[..|s| - 1];
    } else {
      assert s[..n][..j] == s[..j];
      PruneKeeps(s[..n], j);
    }
  }

  /** Pruning twice prunes nothing more: a pruned list is all connected. */
  lemma {:induction false} PruneIdempotent(s: seq<Client>)
    ensures ConnectedOnly(ConnectedOnly(s)) == ConnectedOnly(s)
  {
    PruneSplits(s);
    AllConnectedKept(ConnectedOnly(s));
  }

  /** A list whose clients are all connected is kept whole by pruning. */
  lemma {:induction false} AllConnectedKept(s: seq<Client>)
    requires AllConnected(s)
    ensures ConnectedOnly(s) == s
  {
    if s != [] {
      var n := |s| - 1;
      forall j | 0 <= j < n ensures s[..n][j].connected {
        assert s[..n][j] == s[j];
      }
      AllConnectedKept(s[..n]);
      assert s == s[..n] + [s[n]];
    }
  }

  /** Writing leaves every client's flags alone, so pruning and writing commute. */
  lemma {:induction false} PruneWritten(s: seq<Client>, buffer: seq<byte>)
    ensures ConnectedOnly(WrittenTo(s, buffer)) == WrittenTo(ConnectedOnly(s), buffer)
  {
    if s != [] {
      var n := |s| - 1;
      PruneWritten(s[..n], buffer);
      assert WrittenTo(s, buffer)[..n] == WrittenTo(s[..n], buffer);
      var kept := ConnectedOnly(s[..n]);
      assert WrittenTo(ConnectedOnly(s), buffer) ==
             WrittenTo(kept, buffer) + (if s[n].connected then [WriteTo(s[n], buffer)] else []);
    }
  }

  /** Writing `a` and then `b` to the same clients is writing `a + b`. */
  lemma WrittenTwice(s: seq<Client>, a: seq<byte>, b: seq<byte>)
    ensures WrittenTo(WrittenTo(s, a), b) == WrittenTo(s, a + b)
  {
    forall j | 0 <= j < |s| ensures WrittenTo(WrittenTo(s, a), b)[j] == WrittenTo(s, a + b)[j] {
      assert s[j].log + a + b == s[j].log + (a + b);
    }
  }

  /**
    Two consecutive `Write` calls with nothing disconnecting in between: the
    second prune removes nothing, and every client the first prune kept
    receives the first buffer followed by the second, and nothing else.
  */
  lemma ConsecutiveWrites(s: seq<Client>, a: seq<byte>, b: seq<byte>)
    ensures WrittenTo(ConnectedOnly(WrittenTo(ConnectedOnly(s), a)), b) == WrittenTo(ConnectedOnly(s), a + b)
  {
    PruneWritten(ConnectedOnly(s), a);
    PruneIdempotent(s);
    WrittenTwice(ConnectedOnly(s), a, b);
  }

  /** A disposed list is pruned away whole: a `Write` after `Dispose` reaches no client. */
  lemma {:induction false} DisposedListPrunedAway(s: seq<Client>, buffer: seq<byte>)
    ensures ConnectedOnly(AllDisposed(s)) == []
    ensures WrittenTo(ConnectedOnly(AllDisposed(s)), buffer) == []
  {
    if s != [] {
      var n := |s| - 1;
      DisposedListPrunedAway(s[..n], buffer);
      assert AllDisposed(s)[..n] == AllDisposed(s[..n]);
    }
  }

  /** `List.Remove`: drop the first occurrence of `x`, if there is one. */
  function RemoveFirst<T(==)>(s: seq<T>, x: T): (r: seq<T>)
    ensures x !in s ==> r == s
    ensures x in s ==> |r| == |s| - 1
  {
    if s == [] then []
    else if s[0] == x then s[1..]
    else [s[0]] + RemoveFirst(s[1..], x)
  }

  /** When `x` first occurs at index `i`, removing it is cutting index `i` out of the list. */
  lemma {:induction false} RemoveFirstAt<T>(s: seq<T>, i: nat, x: T)
    requires i < |s| && s[i] == x
    requires forall j :: 0 <= j < i ==> s[j] != x
    ensures RemoveFirst(s, x) == s[..i] + s[i + 1..]
  {
    if i > 0 {
      RemoveFirstAt(s[1..], i - 1, x);
      assert s[1..][..i - 1] == s[1..i];
      assert s[1..][i..] == s[i + 1..];
    }
  }

  /**
    The shape of the list during pruning: with the first `k` clients of
    `orig` inspected, the list is the connected ones among them followed by
    the rest, so the client at the loop index is client `k` of `orig`.
  */
  lemma PruneCursor(orig: seq<Client>, k: nat)
    requires k < |orig|
    ensures var kept := ConnectedOnly(orig[..k]);
      (kept + orig[k..])[|kept|] == orig[k]
  {
  }

  /** Keeping a connected client at the loop index leads to the same shape for `k + 1`. */
  lemma PruneKeepStep(orig: seq<Client>, k: nat)
    requires k < |orig| && orig[k].connected
    ensures ConnectedOnly(orig[..k]) + orig[k..] == ConnectedOnly(orig[..k + 1]) + orig[k + 1..]
  {
    FiltersSnoc(orig, k);
    assert orig[k..] == [orig[k]] + orig[k + 1..];
  }

  /**
    Removing a disconnected client at the loop index leads to the same shape
    for `k + 1`. `List.Remove` takes out its first occurrence, which is that
    index itself, because every client before it is connected and it is not.
  */
  lemma PruneRemoveStep(orig: seq<Client>, k: nat)
    requires k < |orig| && !orig[k].connected
    ensures RemoveFirst(ConnectedOnly(orig[..k]) + orig[k..], orig[k]) == ConnectedOnly(orig[..k + 1]) + orig[k + 1..]
  {
    FiltersSnoc(orig, k);
    PruneSplits(orig[..k]);
    var kept := ConnectedOnly(orig[..k]);
    var list := kept + orig[k..];
    forall j | 0 <= j < |kept| ensures list[j] != orig[k] {
      assert list[j] == kept[j];
    }
    RemoveFirstAt(list, |kept|, orig[k]);
    assert list[..|kept|] == kept;
    assert list[|kept| + 1..] == orig[k + 1..];
  }

  /**
    The loop of `CheckConnections`, on the list's value: walk the list with
    an index, and at a client that is no longer connected dispose it and
    `Remove` it, leaving the index where it is (the source's `i--` before
    the loop's `i++`) so that the next client is not skipped. The result is
    the connected clients in order, and the disposed ones in the order they
    were removed.
  */
  method Prune(orig: seq<Client>) returns (list: seq<Client>, gone: seq<Client>)
    ensures list == ConnectedOnly(orig)
    ensures gone == DisposedDisconnected(orig)
  {
    ghost var k := 0;
    list, gone := orig, [];
    var i := 0;
    while i < |list|
      invariant k <= |orig|
      invariant list == ConnectedOnly(orig[..k]) + orig[k..]
      invariant i == |ConnectedOnly(orig[..k])|
      invariant gone == DisposedDisconnected(orig[..k])
      decreases |orig| - k
    {
      PruneCursor(orig, k);
      FiltersSnoc(orig, k);
      var currClient := list[i];
      if !currClient.connected {
        PruneRemoveStep(orig, k);
        gone := gone + [DisposeOf(currClient)];
        list := RemoveFirst(list, currClient);
      } else {
        PruneKeepStep(orig, k);
        i := i + 1;
      }
      k := k + 1;
    }
    assert orig[..k] == orig;
  }

  /** The little-endian bytes of `(ushort)n`, as `BitConverter.GetBytes` gives them on a little-endian machine. */
  function UInt16Bytes(n: nat): (b: seq<byte>)
    ensures |b| == 2 && b[0] as int + 0x100 * (b[1] as int) == n % 0x1_0000
  {
    var v := n % 0x1_0000;
    [v % 0x100, v / 0x100]
  }

  /** `BitConverter.ToUInt16` on the first two bytes, little-endian. */
  function ToUInt16(b: seq<byte>): (n: nat)
    requires |b| >= 2
    ensures n < 0x1_0000 && n % 0x100 == b[0] && n / 0x100 == b[1]
  {
    var lo: int, hi: int := b[0], b[1];
    lo + 0x100 * hi
  }

  /** Reading back a length prefix gives the length, reduced modulo 2^16 by the cast to `ushort`. */
  lemma UInt16RoundTrip(n: nat)
    ensures ToUInt16(UInt16Bytes(n)) == n % 0x1_0000
    ensures n < 0x1_0000 ==> ToUInt16(UInt16Bytes(n)) == n
  {
  }

  /**
    The reading side of the communication test: a 2-byte length, then that
    many bytes of data; `None` when the stream holds fewer bytes than that.
  */
  function ReadLengthPrefixed(stream: seq<byte>): (r: Option<seq<byte>>)
    ensures r.Some? <==> |stream| >= 2 && |stream| >= 2 + ToUInt16(stream)
    ensures r.Some? ==> |r.value| == ToUInt16(stream) && stream == stream[..2] + r.value + stream[2 + |r.value|..]
  {
    if |stream| < 2 then None
    else
      var n := ToUInt16(stream);
      if |stream| < 2 + n then None else Some(stream[2..2 + n])
  }

  /** A payload shorter than 2^16 bytes sent after its length reads back whole, whatever follows it. */
  lemma LengthPrefixedRoundTrip(payload: seq<byte>, rest: seq<byte>)
    requires |payload| < 0x1_0000
    ensures ReadLengthPrefixed(UInt16Bytes(|payload|) + payload + rest) == Some(payload)
  {
    var stream := UInt16Bytes(|payload|) + payload + rest;
    UInt16RoundTrip(|payload|);
    assert stream[..2] == UInt16Bytes(|payload|);
    assert stream[2..2 + |payload|] == payload;
  }

  /**
    The application's pattern: `Write` of the payload's length, then `Write`
    of the payload, with nothing disconnecting in between. Every client kept
    by the first prune can read the payload back from where its stream stood.
  */
  lemma AppPatternArrives(s: seq<Client>, payload: seq<byte>, j: nat)
    requires |payload| < 0x1_0000 && j < |ConnectedOnly(s)|
    ensures
      var after := WrittenTo(ConnectedOnly(WrittenTo(ConnectedOnly(s), UInt16Bytes(|payload|))), payload);
      var before := ConnectedOnly(s)[j].log;
      && j < |after|
      && after[j].log == before + UInt16Bytes(|payload|) + payload
      && ReadLengthPrefixed(after[j].log[|before|..]) == Some(payload)
  {
    var prefix := UInt16Bytes(|payload|);
    ConsecutiveWrites(s, prefix, payload);
    var before := ConnectedOnly(s)[j].log;
    var log := before + (prefix + payload);
    assert log[|before|..] == prefix + payload + [];
    LengthPrefixedRoundTrip(payload, []);
  }

  class TcpConnector {
    var clients: seq<Client>
    /** The streams delivered through the `ClientConnected` event, one per accepted client, in order. */
    var connectedEvents: seq<Client>
    /** The clients that pruning disposed and took out of the list, in order. */
    var dropped: seq<Client>
    /** False once `Dispose` has stopped the listener. */
    var listening: bool

    /**
      A disposed client in the list reads as disconnected, and while listening
      the list holds no disposed client; every client taken out was disposed.
    */
    ghost predicate Valid()
      reads this
    {
      && DisposedAreDisconnected(clients)
      && (listening ==> NoneDisposed(clients))
      && (forall j :: 0 <= j < |dropped| ==> dropped[j].disposed)
    }

    /** The constructor: an empty list and a started listener. */
    constructor ()
      ensures Valid() && listening
      ensures clients == [] && connectedEvents == [] && dropped == []
    {
      clients := [];
      connectedEvents := [];
      dropped := [];
      listening := true;
    }

    /** The `ConnectedClientsCount` property: the length of the list, pruned or not. */
    function ConnectedClientsCount(): nat
      reads this
    {
      |clients|
    }

    /**
      The environment: the network closes client `j`'s connection, which its
      `Connected` flag then reports. Nothing else changes.
    */
    method Disconnect(j: nat)
      requires Valid() && j < |clients|
      modifies this
      ensures Valid()
      ensures clients == old(clients)[j := old(clients)[j].(connected := false)]
      ensures dropped == old(dropped) && connectedEvents == old(connectedEvents) && listening == old(listening)
    {
      clients := clients[j := clients[j].(connected := false)];
    }

    /** An accepted connection joins the tail of the list and is announced once. */
    method ClientAccepted() returns (client: Client)
      requires Valid() && listening
      modifies this
      ensures Valid() && listening
      ensures client == Accepted
      ensures clients == old(clients) + [client]
      ensures connectedEvents == old(connectedEvents) + [client]
      ensures dropped == old(dropped)
      ensures ConnectedClientsCount() == old(ConnectedClientsCount()) + 1
    {
      client := Accepted;
      clients := clients + [client];
      connectedEvents := connectedEvents + [client];
    }

    /**
      Dispose and remove every client that is not connected; the others stay,
      in order, and none of them is disposed.
    */
    method CheckConnections()
      requires Valid()
      modifies this
      ensures Valid() && NoneDisposed(clients)
      ensures clients == ConnectedOnly(old(clients))
      ensures dropped == old(dropped) + DisposedDisconnected(old(clients))
      ensures listening == old(listening) && connectedEvents == old(connectedEvents)
    {
      var gone;
      PruneSplits(clients);
      clients, gone := Prune(clients);
      dropped := dropped + gone;
    }

    /** `Write(params byte[] buffer)`: prune, then write the buffer to every remaining client in list order. */
    method Write(buffer: seq<byte>)
      requires Valid()
      modifies this
      ensures Valid() && NoneDisposed(clients)
      ensures clients == WrittenTo(ConnectedOnly(old(clients)), buffer)
      ensures dropped == old(dropped) + DisposedDisconnected(old(clients))
      ensures listening == old(listening) && connectedEvents == old(connectedEvents)
    {
      CheckConnections();
      label Pruned:
      ghost var pruned := clients;
      for i := 0 to |clients|
        invariant |clients| == |pruned|
        invariant forall j :: 0 <= j < |clients| ==>
          clients[j] == if j < i then WriteTo(pruned[j], buffer) else pruned[j]
        invariant dropped == old@Pruned(dropped)
        invariant listening == old(listening) && connectedEvents == old(connectedEvents)
      {
        clients := clients[i := WriteTo(clients[i], buffer)];
      }
      assert clients == WrittenTo(pruned, buffer);
      assert NoneDisposed(clients) by {
        forall j | 0 <= j < |clients| ensures !clients[j].disposed {
          assert clients[j] == WriteTo(pruned[j], buffer);
        }
      }
    }

    /** Stop listening and dispose every client of the list, which keeps them. */
    method Dispose()
      requires Valid()
      modifies this
      ensures Valid() && !listening
      ensures clients == AllDisposed(old(clients))
      ensures dropped == old(dropped) && connectedEvents == old(connectedEvents)
    {
      listening := false;
      ghost var listed := clients;
      for i := 0 to |clients|
        invariant |clients| == |listed|
        invariant forall j :: 0 <= j < |clients| ==>
          clients[j] == if j < i then DisposeOf(listed[j]) else listed[j]
        invariant !listening && dropped == old(dropped) && connectedEvents == old(connectedEvents)
      {
        clients := clients[i := DisposeOf(clients[i])];
      }
      assert clients == AllDisposed(listed);
    }
  }
}
