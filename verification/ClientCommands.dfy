/** Reliable client commands: the sequence-number gate of `SV_ClientCommand`. */
module ClientCommands {
  import opened CTypes

  datatype Packet = Packet(seqNum: int, text: string)

  /** The gate's state, with the commands that have got through it so far. */
  datatype Gate = Gate(last: int, dropped: bool, processed: seq<Packet>)

  /** One command packet. A dropped client sends no more. */
  function Handle(g: Gate, p: Packet): Gate {
    if g.dropped || g.last >= p.seqNum then g
    else if p.seqNum > g.last + 1 then g.(dropped := true)
    else g.(last := p.seqNum, processed := g.processed + [p])
  }

  class Client {
    var lastClientCommand: int
    var lastClientCommandString: string
    var dropped: bool
    ghost var processed: seq<Packet>

    ghost function GetGate(): Gate
      reads this
    {
      Gate(lastClientCommand, dropped, processed)
    }

    /** `SV_ClientCommand`, up to what a command does once it is let through. */
    method ClientCommand(seqNum: int, s: string) returns (ok: bool)
      requires !dropped
      modifies this
      ensures GetGate() == Handle(old(GetGate()), Packet(seqNum, s))
      ensures ok == !dropped
      ensures lastClientCommandString ==
              if lastClientCommand != old(lastClientCommand) then s else old(lastClientCommandString)
    {
      if lastClientCommand >= seqNum {
        return true;
      }
      if seqNum > lastClientCommand + 1 {
        dropped := true;
        return false;
      }
      processed := processed + [Packet(seqNum, s)];
      lastClientCommand := seqNum;
      lastClientCommandString := s;
      return true;
    }
  }

  /** The gate after a sequence of packets, in the order they arrive. */
  function GateAfter(last: int, packets: seq<Packet>): Gate {
    if packets == [] then Gate(last, false, [])
    else Handle(GateAfter(last, packets[..|packets| - 1]), packets[|packets| - 1])
  }

  /** The packets all come from one numbering of commands. */
  ghost predicate Consistent(packets: seq<Packet>) {
    forall p, q | p in packets && q in packets && p.seqNum == q.seqNum :: p == q
  }

  /** Whatever arrives, duplicated, reordered or incomplete, the commands processed are numbered
      consecutively from the first one expected, each was actually sent, and the counter equals
      the last of them. */
  lemma {:induction false} ExactlyOnceInOrder(last: int, packets: seq<Packet>)
    ensures var g := GateAfter(last, packets);
            && g.last == last + |g.processed|
            && forall i | 0 <= i < |g.processed| ::
                 g.processed[i].seqNum == last + 1 + i && g.processed[i] in packets
  {
    if packets == [] {
    } else {
      var before := packets[..|packets| - 1];
      ExactlyOnceInOrder(last, before);
      assert forall p | p in before :: p in packets;
    }
  }

  ghost predicate Received(packets: seq<Packet>, m: int) {
    exists p | p in packets :: p.seqNum == m
  }

  /** Packet `i` arrives before command `m`, which precedes it. */
  ghost predicate Skips(last: int, packets: seq<Packet>, i: int, m: int)
    requires 0 <= i < |packets|
  {
    last < m < packets[i].seqNum && !Received(packets[..i], m)
  }

  /** A gate that is still open has let through every number up to its counter, and has seen no
      other beyond the first expected. */
  lemma {:induction false} ReceivedUpToCounter(last: int, packets: seq<Packet>, m: int)
    requires !GateAfter(last, packets).dropped && last < m
    ensures Received(packets, m) <==> m <= GateAfter(last, packets).last
  {
    if packets == [] {
    } else {
      var before, p := packets[..|packets| - 1], packets[|packets| - 1];
      ReceivedUpToCounter(last, before, m);
      ReceivedLast(packets, m);
    }
  }

  lemma {:induction false} ReceivedLast(packets: seq<Packet>, m: int)
    requires packets != []
    ensures Received(packets, m) <==> Received(packets[..|packets| - 1], m) || packets[|packets| - 1].seqNum == m
  {
    var before, p := packets[..|packets| - 1], packets[|packets| - 1];
    assert forall q | q in packets :: q in before || q == p;
    assert p in packets;
  }

  /** A client is dropped exactly when some packet arrives before a command that precedes it. */
  lemma {:induction false} DroppedIffGap(last: int, packets: seq<Packet>)
    ensures GateAfter(last, packets).dropped
            <==> exists i, m | 0 <= i < |packets| :: Skips(last, packets, i, m)
  {
    if packets == [] {
    } else {
      var n := |packets| - 1;
      var before := packets[..n];
      DroppedIffGap(last, before);
      forall i, m | 0 <= i < n
        ensures Skips(last, packets, i, m) <==> Skips(last, before, i, m)
      {
        assert before[..i] == packets[..i];
      }
      if !GateAfter(last, before).dropped {
        LastSkips(last, packets, n);
      }
    }
  }

  /** The last packet closes an open gate exactly when it skips a number. */
  lemma {:induction false} LastSkips(last: int, packets: seq<Packet>, n: nat)
    requires n + 1 == |packets| && !GateAfter(last, packets[..n]).dropped
    ensures GateAfter(last, packets).dropped <==> exists m :: Skips(last, packets, n, m)
  {
    var g := GateAfter(last, packets[..n]);
    ExactlyOnceInOrder(last, packets[..n]);
    forall m | last < m
      ensures Received(packets[..n], m) <==> m <= g.last
    {
      ReceivedUpToCounter(last, packets[..n], m);
    }
    if packets[n].seqNum > g.last + 1 {
      assert Skips(last, packets, n, g.last + 1);
    }
  }

  /** The effect does not depend on the order or multiplicity of arrival: two undropped
      deliveries of the same set of packets process the same commands. */
  lemma {:induction false} SameCommands(last: int, a: seq<Packet>, b: seq<Packet>)
    requires Consistent(a) && (forall p :: p in a <==> p in b)
    requires !GateAfter(last, a).dropped && !GateAfter(last, b).dropped
    ensures GateAfter(last, a) == GateAfter(last, b)
  {
    ExactlyOnceInOrder(last, a);
    ExactlyOnceInOrder(last, b);
    var ga, gb := GateAfter(last, a), GateAfter(last, b);
    if ga.last > last {
      ReceivedUpToCounter(last, b, ga.last);
      assert ga.processed[|ga.processed| - 1] in b;
    }
    if gb.last > last {
      ReceivedUpToCounter(last, a, gb.last);
      assert gb.processed[|gb.processed| - 1] in a;
    }
    assert |ga.processed| == |gb.processed|;
    forall i | 0 <= i < |ga.processed| ensures ga.processed[i] == gb.processed[i] {
      assert gb.processed[i] in a;
    }
  }
}
