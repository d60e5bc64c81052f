/** The server's side of a step: the slots of connected clients, the relay to all but the sender,
    and the handling of one line. */
module Server {
  import opened Grids
  import opened Canvases
  import CanvasText
  import Chars
  import GridFlat
  import Wire
  import Replica

  const MAX_CLIENTS: nat := 100

  /** A connection, with the lines written to it and not read yet. */
  class Connection {
    const uid: int
    var out: seq<string>

    constructor (uid: int)
      ensures this.uid == uid && out == []
    {
      this.uid, out := uid, [];
    }
  }

  /** No connection sits in two slots, and no two connections have the same uid. */
  ghost predicate Apart(slots: seq<Connection?>) {
    forall i, j :: 0 <= i < j < |slots| && slots[i] != null && slots[j] != null ==>
      slots[i] != slots[j] && slots[i].uid != slots[j].uid
  }

  predicate IsFirstFree(slots: seq<Connection?>, i: int) {
    0 <= i < |slots| && slots[i] == null && forall k :: 0 <= k < i ==> slots[k] != null
  }

  ghost function Members(slots: seq<Connection?>): set<Connection> {
    set i | 0 <= i < |slots| && slots[i] != null :: slots[i]
  }

  lemma SlotTaken(slots: seq<Connection?>, i: nat, cl: Connection)
    requires Apart(slots) && i < |slots| && slots[i] == null && forall c :: c in Members(slots) ==> c.uid != cl.uid
    ensures Apart(slots[i := cl]) && Members(slots[i := cl]) == Members(slots) + {cl}
  {
    var after := slots[i := cl];
    forall k | 0 <= k < |slots| && k != i && slots[k] != null
      ensures slots[k].uid != cl.uid && slots[k] in Members(after)
    {
      assert slots[k] in Members(slots);
      assert after[k] == slots[k];
    }
    assert after[i] == cl && cl in Members(after);
  }

  lemma SlotFreed(slots: seq<Connection?>, i: nat)
    requires Apart(slots) && i < |slots| && slots[i] != null
    ensures Apart(slots[i := null])
    ensures Members(slots[i := null]) == set c | c in Members(slots) && c.uid != slots[i].uid
  {
    var after := slots[i := null];
    forall k | 0 <= k < |slots| && k != i && slots[k] != null
      ensures slots[k].uid != slots[i].uid && slots[k] in Members(after)
    {
      assert after[k] == slots[k];
    }
  }

  lemma NoneHasUid(slots: seq<Connection?>, uid: int)
    requires forall k :: 0 <= k < |slots| && slots[k] != null ==> slots[k].uid != uid
    ensures Members(slots) == set c | c in Members(slots) && c.uid != uid
  {}

  class Server {
    const canvas: Canvas
    const canvasBuf: array<char>
    const clients: array<Connection?>

    constructor (canvas: Canvas)
      requires canvas.Valid()
      ensures this.canvas == canvas && Valid() && fresh(clients) && fresh(canvasBuf)
      ensures forall i :: 0 <= i < MAX_CLIENTS ==> clients[i] == null
    {
      this.canvas := canvas;
      canvasBuf := new char[canvas.numRows * canvas.numCols + 1](_ => Chars.NUL);
      clients := new Connection?[MAX_CLIENTS](_ => null);
    }

    ghost predicate Valid()
      reads clients
    {
      && clients.Length == MAX_CLIENTS && canvas.Valid() && Apart(clients[..])
      && canvasBuf.Length == canvas.numRows * canvas.numCols + 1
    }

    ghost function Connected(): set<Connection>
      reads clients
    {
      Members(clients[..])
    }

    /** Puts a client into the first free slot, if there is one. */
    method QueueAdd(cl: Connection)
      requires Valid() && forall c :: c in Connected() ==> c.uid != cl.uid
      modifies clients
      ensures Valid()
      ensures (forall i :: 0 <= i < MAX_CLIENTS ==> old(clients[i]) != null) ==> clients[..] == old(clients[..])
      ensures forall i :: 0 <= i < MAX_CLIENTS && IsFirstFree(old(clients[..]), i) ==>
        clients[..] == old(clients[..])[i := cl] && Connected() == old(Connected()) + {cl}
    {
      var i := 0;
      while i < MAX_CLIENTS
        invariant 0 <= i <= MAX_CLIENTS && clients[..] == old(clients[..])
        invariant forall k :: 0 <= k < i ==> clients[k] != null
      {
        if clients[i] == null {
          hide Apart, Members;
          SlotTaken(clients[..], i, cl);
          clients[i] := cl;
          assert clients[..] == old(clients[..])[i := cl];
          return;
        }
        i := i + 1;
      }
    }

    /** Frees the slot of the client with this uid. */
    method QueueDelete(uid: int)
      requires Valid()
      modifies clients
      ensures Valid()
      ensures Connected() == set c | c in old(Connected()) && c.uid != uid
      ensures forall i :: 0 <= i < MAX_CLIENTS ==>
        clients[i] == if old(clients[i]) != null && old(clients[i]).uid == uid then null else old(clients[i])
    {
      var i := 0;
      while i < MAX_CLIENTS
        invariant 0 <= i <= MAX_CLIENTS && clients[..] == old(clients[..])
        invariant forall k :: 0 <= k < i && clients[k] != null ==> clients[k].uid != uid
      {
        if clients[i] != null {
          if clients[i].uid == uid {
            hide Apart, Members;
            SlotFreed(clients[..], i);
            clients[i] := null;
            assert clients[..] == old(clients[..])[i := null];
            return;
          }
        }
        i := i + 1;
      }
      assert clients[..] == old(clients[..]);
      NoneHasUid(clients[..], uid);
    }

    /** Writes a line to every connected client but the sender. */
    method SendMessage(s: string, uid: int)
      requires Valid()
      modifies Connected()
      ensures forall c :: c in Connected() ==> c.out == if c.uid == uid then old(c.out) else old(c.out) + [s]
    {
      var i := 0;
      while i < MAX_CLIENTS
        invariant 0 <= i <= MAX_CLIENTS
        invariant forall k :: 0 <= k < MAX_CLIENTS && clients[k] != null ==>
          clients[k].out == if k < i && clients[k].uid != uid then old(clients[k].out) + [s] else old(clients[k].out)
      {
        if clients[i] != null {
          if clients[i].uid != uid {
            assert clients[i] in Connected();
            clients[i].out := clients[i].out + [s];
          }
        }
        i := i + 1;
      }
    }

    /** Writes to the client that is being served. */
    method SendMessageSelf(s: string, cl: Connection)
      modifies cl
      ensures cl.out == old(cl.out) + [s]
    {
      cl.out := cl.out + [s];
    }

    /** One turn of the command loop for client cl, for a line that is answered. What is set is
        relayed to the others; a client that asks for the canvas is sent its cells, up to the first NUL. */
    method HandleLine(cl: Connection, line: string)
      requires Valid() && Replica.Handle(canvas.Value(), line).Answer?
      requires forall c :: c in Connected() && c.uid == cl.uid ==> c == cl
      modifies canvas.cells, canvasBuf, cl, Connected()
      ensures Valid() && canvas.Value() == Replica.Handle(old(canvas.Value()), line).master
      ensures forall c :: c in Connected() && c != cl ==>
        c.out == old(c.out) + Replica.Handle(old(canvas.Value()), line).relay
      ensures cl.out == old(cl.out) +
        if Wire.ServerParse(line).SendCanvas? then [Chars.CStr(GridFlat.Flat(old(canvas.Value())))] else []
    {
      match Wire.ServerParse(line)
      case Set(y, x, c) =>
        if !(x > canvas.numCols || y > canvas.numRows) {
          canvas.SetCharYX(y, x, c);
          SendMessage(Wire.SetLine(y, x, c), cl.uid);
        }
      case SendCanvas =>
        var n := CanvasText.Serialize(canvas, canvasBuf);
        SendMessageSelf(Chars.CStr(canvasBuf[..n]), cl);
      case _ =>
    }
  }
}
