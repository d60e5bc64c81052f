/** The replicated canvas: a server with the master copy and clients with replicas, connected by
    first-in first-out links that carry lines of text. */
module Replica {
  import opened Chars
  import opened Grids
  import opened Wire
  import GridText
  import GridFlat

  /** A connected client: its canvas, the lines it has sent and the lines sent to it that have
      not been read yet. */
  datatype Client = Client(replica: Grid, up: seq<string>, down: seq<string>)

  datatype World = World(master: Grid, clients: map<int, Client>, nextUid: int)

  datatype Step =
    | Edit(uid: int, y: nat, x: nat, c: char)
    | Serve(uid: int)
    | Receive(uid: int)
    | Join
    | Leave(uid: int)

  // ---------------------------------------------------------------------------
  // Steps
  // ---------------------------------------------------------------------------

  /** The server's check of the coordinates: one too many passes on each side. */
  predicate PassesCheck(g: Grid, y: int, x: int) {
    !(x > g.numCols || y > g.numRows)
  }

  /** The server's answer to a line: the new master, and the line for the other clients if any.
      Setting a cell outside the grid stops the server; a line that does so is left unread here, and so is
      one of whose numbers C does not say how it is read. */
  datatype Answer = Answer(master: Grid, relay: seq<string>) | Stopped | Undefined

  function Handle(master: Grid, line: string): (a: Answer)
    requires master.Valid()
    ensures a.Answer? ==> a.master.Valid() && a.master.numRows == master.numRows && a.master.numCols == master.numCols
  {
    match ServerParse(line)
    case Set(y, x, c) =>
      if !PassesCheck(master, y, x) then Answer(master, [])
      else if !IsIn(master, y, x) then Stopped
      else Answer(Put(master, y, x, c), [SetLine(y, x, c)])
    case Malformed => Stopped
    case Undefined => Answer.Undefined
    case _ => Answer(master, [])
  }

  /** A client's canvas after reading a line. */
  function Read(g: Grid, line: string): (h: Grid)
    requires g.Valid()
    ensures h.Valid() && h.numRows == g.numRows && h.numCols == g.numCols
  {
    match ClientParse(line)
    case Set(y, x, c) => if IsIn(g, y, x) then Put(g, y, x, c) else g
    case _ => g
  }

  /** The snapshot a client builds from the size line and the line of cells. */
  function Snapshot(master: Grid): (g: Grid)
    requires master.Valid() && GridText.PlainGrid(master)
    ensures g.Valid()
  {
    SizeReads(master.numRows, master.numCols);
    var size := ParseSize(SizeLine(master.numRows, master.numCols));
    var blank := Blank(size.rows, size.cols);
    GridFlat.LoadFlat(master, blank, ['\n', NUL]);
    GridText.Load(blank, GridFlat.Flat(master) + ['\n', NUL], 0, 0, 0, NUL)
  }

  /** A new client has exactly the server's canvas. */
  lemma SnapshotExact(master: Grid)
    requires master.Valid() && GridText.PlainGrid(master)
    ensures Snapshot(master) == master
  {
    SizeReads(master.numRows, master.numCols);
    GridFlat.LoadFlat(master, Blank(master.numRows, master.numCols), ['\n', NUL]);
  }

  ghost predicate Enabled(w: World, s: Step)
    requires w.master.Valid()
  {
    match s
    case Edit(u, y, x, c) =>
      u in w.clients && IsIn(w.clients[u].replica, y, x) && IsPrintable(c)
    case Serve(u) => u in w.clients && w.clients[u].up != [] && Handle(w.master, w.clients[u].up[0]).Answer?
    case Receive(u) => u in w.clients && w.clients[u].down != []
    case Join => GridText.PlainGrid(w.master)
    case Leave(u) => u in w.clients
  }

  /** The other clients after a line has been relayed to them. */
  function Relay(clients: map<int, Client>, sender: int, lines: seq<string>): map<int, Client> {
    map u | u in clients :: if u == sender then clients[u] else clients[u].(down := clients[u].down + lines)
  }

  /** All canvases have the size of the master, whose sides fit 32-bit integers. */
  ghost predicate Shaped(w: World) {
    && w.master.Valid() && w.master.numRows < 0x8000_0000 && w.master.numCols < 0x8000_0000
    && (forall u :: u in w.clients ==>
          w.clients[u].replica.Valid()
          && w.clients[u].replica.numRows == w.master.numRows && w.clients[u].replica.numCols == w.master.numCols)
  }

  ghost function Apply(w: World, s: Step): (v: World)
    requires Shaped(w) && Enabled(w, s)
  {
    match s
    case Edit(u, y, x, c) =>
      var me := w.clients[u];
      w.(clients := w.clients[u := me.(replica := Put(me.replica, y, x, c), up := me.up + [SendChar(y, x, c)])])
    case Serve(u) =>
      var me := w.clients[u];
      var a := Handle(w.master, me.up[0]);
      w.(master := a.master, clients := Relay(w.clients[u := me.(up := me.up[1..])], u, a.relay))
    case Receive(u) =>
      var me := w.clients[u];
      w.(clients := w.clients[u := me.(replica := Read(me.replica, me.down[0]), down := me.down[1..])])
    case Join =>
      w.(clients := w.clients[w.nextUid := Client(Snapshot(w.master), [], [])], nextUid := w.nextUid + 1)
    case Leave(u) => w.(clients := w.clients - {u})
  }

  // ---------------------------------------------------------------------------
  // Replaying lines
  // ---------------------------------------------------------------------------

  /** The canvas after all the lines have been read in order. */
  function Replay(g: Grid, lines: seq<string>): (h: Grid)
    requires g.Valid()
    ensures h.Valid() && h.numRows == g.numRows && h.numCols == g.numCols
    decreases |lines|
  {
    if lines == [] then g else Replay(Read(g, lines[0]), lines[1..])
  }

  /** A line about a cell of a grid of this size, as it is sent and relayed. */
  ghost predicate IsMessage(g: Grid, line: string, y: nat, x: nat, c: char) {
    line == SetLine(y, x, c) && IsPrintable(c) && IsIn(g, y, x) && IsInt(y) && IsInt(x)
  }

  lemma {:induction false} ReplayAppend(g: Grid, lines: seq<string>, line: string)
    requires g.Valid()
    ensures Replay(g, lines + [line]) == Read(Replay(g, lines), line)
    decreases |lines|
  {
    if lines == [] {
      assert ([] + [line])[1..] == [];
    } else {
      assert (lines + [line])[1..] == lines[1..] + [line];
      ReplayAppend(Read(g, lines[0]), lines[1..], line);
    }
  }

  /** Reading lines changes a cell in a way that depends on that cell only. */
  lemma {:induction false} ReplayCellwise(g: Grid, h: Grid, lines: seq<string>, y: nat, x: nat)
    requires g.Valid() && h.Valid() && g.numRows == h.numRows && g.numCols == h.numCols
    requires IsIn(g, y, x) && Cell(g, y, x) == Cell(h, y, x)
    ensures Cell(Replay(g, lines), y, x) == Cell(Replay(h, lines), y, x)
    decreases |lines|
  {
    if lines != [] {
      ReplayCellwise(Read(g, lines[0]), Read(h, lines[0]), lines[1..], y, x);
    }
  }

  lemma ReadMessage(g: Grid, line: string, y: nat, x: nat, c: char)
    requires g.Valid() && IsMessage(g, line, y, x, c)
    ensures Read(g, line) == Put(g, y, x, c)
    ensures Handle(g, line) == Answer(Put(g, y, x, c), [line])
  {
    hide SetLine, ServerParse, ClientParse;
    ServerReads(y, x, c);
    ClientReads(y, x, c);
  }

  // ---------------------------------------------------------------------------
  // The invariant
  // ---------------------------------------------------------------------------

  /** Which client has ever set which cell. */
  type History = set<(int, nat, nat)>

  /** Somebody else has set the cell. */
  ghost predicate SetByOther(wr: History, u: int, y: nat, x: nat) {
    exists v :: v != u && (v, y, x) in wr
  }

  ghost predicate OwnMessage(g: Grid, wr: History, u: int, line: string) {
    exists y: nat, x: nat, c :: IsMessage(g, line, y, x, c) && (u, y, x) in wr
  }

  ghost predicate ForeignMessage(g: Grid, wr: History, u: int, line: string) {
    exists y: nat, x: nat, c :: IsMessage(g, line, y, x, c) && SetByOther(wr, u, y, x)
  }

  /** A client agrees with the master: on every cell it has not set, once it has read what is on
      its way to it; on every cell nobody else has set, once the server has read what is on its
      way from it. */
  ghost predicate Agrees(master: Grid, u: int, cl: Client, wr: History)
    requires master.Valid() && cl.replica.Valid()
    requires cl.replica.numRows == master.numRows && cl.replica.numCols == master.numCols
  {
    && (forall k :: 0 <= k < |cl.up| ==> OwnMessage(master, wr, u, cl.up[k]))
    && (forall k :: 0 <= k < |cl.down| ==> ForeignMessage(master, wr, u, cl.down[k]))
    && (forall y: nat, x: nat :: IsIn(master, y, x) && (u, y, x) !in wr ==>
          Cell(Replay(cl.replica, cl.down), y, x) == Cell(master, y, x))
    && (forall y: nat, x: nat :: IsIn(master, y, x) && !SetByOther(wr, u, y, x) ==>
          Cell(Replay(master, cl.up), y, x) == Cell(cl.replica, y, x))
  }

  ghost predicate Inv(w: World, wr: History) {
    && Shaped(w) && GridText.PlainGrid(w.master)
    && (forall u :: u in w.clients ==> u < w.nextUid)
    && (forall m :: m in wr ==> m.0 < w.nextUid)
    && (forall u :: u in w.clients ==> Agrees(w.master, u, w.clients[u], wr))
  }

  lemma MessageStays(g: Grid, h: Grid, wr: History, wr': History, u: int, line: string)
    requires g.numRows == h.numRows && g.numCols == h.numCols && wr <= wr'
    ensures OwnMessage(g, wr, u, line) ==> OwnMessage(h, wr', u, line)
    ensures ForeignMessage(g, wr, u, line) ==> ForeignMessage(h, wr', u, line)
  {
    if OwnMessage(g, wr, u, line) {
      var y: nat, x: nat, c :| IsMessage(g, line, y, x, c) && (u, y, x) in wr;
      assert IsMessage(h, line, y, x, c);
    }
    if ForeignMessage(g, wr, u, line) {
      var y: nat, x: nat, c :| IsMessage(g, line, y, x, c) && SetByOther(wr, u, y, x);
      assert IsMessage(h, line, y, x, c);
      var v :| v != u && (v, y, x) in wr;
      assert SetByOther(wr', u, y, x);
    }
  }

  lemma MessagesStay(g: Grid, h: Grid, wr: History, wr': History, u: int, cl: Client)
    requires g.numRows == h.numRows && g.numCols == h.numCols && wr <= wr'
    requires forall k :: 0 <= k < |cl.up| ==> OwnMessage(g, wr, u, cl.up[k])
    requires forall k :: 0 <= k < |cl.down| ==> ForeignMessage(g, wr, u, cl.down[k])
    ensures forall k :: 0 <= k < |cl.up| ==> OwnMessage(h, wr', u, cl.up[k])
    ensures forall k :: 0 <= k < |cl.down| ==> ForeignMessage(h, wr', u, cl.down[k])
  {
    forall k | 0 <= k < |cl.up|
      ensures OwnMessage(h, wr', u, cl.up[k])
    {
      MessageStays(g, h, wr, wr', u, cl.up[k]);
    }
    forall k | 0 <= k < |cl.down|
      ensures ForeignMessage(h, wr', u, cl.down[k])
    {
      MessageStays(g, h, wr, wr', u, cl.down[k]);
    }
  }

  lemma OthersGrow(wr: History, u: int, y: nat, x: nat, v: int, y': nat, x': nat)
    ensures SetByOther(wr, v, y', x') ==> SetByOther(wr + {(u, y, x)}, v, y', x')
    ensures u != v ==> SetByOther(wr + {(u, y, x)}, v, y, x)
  {}

  /** The client that sets a cell. */
  lemma EditSelf(master: Grid, u: int, cl: Client, wr: History, y: nat, x: nat, c: char)
    requires master.Valid() && cl.replica.Valid()
    requires cl.replica.numRows == master.numRows && cl.replica.numCols == master.numCols
    requires Agrees(master, u, cl, wr) && IsIn(master, y, x) && IsPrintable(c) && IsInt(y) && IsInt(x)
    ensures Agrees(master, u, cl.(replica := Put(cl.replica, y, x, c), up := cl.up + [SetLine(y, x, c)]), wr + {(u, y, x)})
  {
    hide OwnMessage, ForeignMessage;
    var wr' := wr + {(u, y, x)};
    var line := SetLine(y, x, c);
    var me := cl.(replica := Put(cl.replica, y, x, c), up := cl.up + [line]);
    MessagesStay(master, master, wr, wr', u, cl);
    OwnLine(master, wr', u, y, x, c);
    forall y': nat, x': nat | IsIn(master, y', x') && (u, y', x') !in wr'
      ensures Cell(Replay(me.replica, me.down), y', x') == Cell(master, y', x')
    {
      ReplayCellwise(me.replica, cl.replica, cl.down, y', x');
    }
    forall y': nat, x': nat | IsIn(master, y', x') && !SetByOther(wr', u, y', x')
      ensures Cell(Replay(master, me.up), y', x') == Cell(me.replica, y', x')
    {
      OthersGrow(wr, u, y, x, u, y', x');
      ReplayAppend(master, cl.up, line);
      ReadMessage(Replay(master, cl.up), line, y, x, c);
    }
  }

  lemma OwnLine(g: Grid, wr: History, u: int, y: nat, x: nat, c: char)
    requires IsIn(g, y, x) && IsPrintable(c) && IsInt(y) && IsInt(x) && (u, y, x) in wr
    ensures OwnMessage(g, wr, u, SetLine(y, x, c))
  {
    assert IsMessage(g, SetLine(y, x, c), y, x, c);
  }

  /** Every other client, when a cell is set. */
  lemma EditOther(master: Grid, v: int, cl: Client, wr: History, u: int, y: nat, x: nat)
    requires master.Valid() && cl.replica.Valid() && u != v
    requires cl.replica.numRows == master.numRows && cl.replica.numCols == master.numCols
    requires Agrees(master, v, cl, wr)
    ensures Agrees(master, v, cl, wr + {(u, y, x)})
  {
    hide OwnMessage, ForeignMessage;
    MessagesStay(master, master, wr, wr + {(u, y, x)}, v, cl);
    forall y': nat, x': nat | IsIn(master, y', x') && !SetByOther(wr + {(u, y, x)}, v, y', x')
      ensures !SetByOther(wr, v, y', x')
    {
      OthersGrow(wr, u, y, x, v, y', x');
    }
  }

  lemma OtherCell(g: Grid, y: nat, x: nat, c: char, y': nat, x': nat)
    requires g.Valid() && IsIn(g, y, x) && IsIn(g, y', x') && (y, x) != (y', x')
    ensures Cell(Put(g, y, x, c), y', x') == Cell(g, y', x')
  {}

  lemma ReplayFirst(g: Grid, lines: seq<string>, y: nat, x: nat, c: char)
    requires g.Valid() && lines != [] && IsMessage(g, lines[0], y, x, c)
    ensures Replay(g, lines) == Replay(Put(g, y, x, c), lines[1..])
  {
    ReadMessage(g, lines[0], y, x, c);
  }

  /** The client whose line the server reads. */
  lemma ServeSelf(master: Grid, u: int, cl: Client, wr: History, y: nat, x: nat, c: char)
    requires master.Valid() && cl.replica.Valid()
    requires cl.replica.numRows == master.numRows && cl.replica.numCols == master.numCols
    requires Agrees(master, u, cl, wr) && cl.up != [] && IsMessage(master, cl.up[0], y, x, c) && (u, y, x) in wr
    ensures Agrees(Put(master, y, x, c), u, cl.(up := cl.up[1..]), wr)
  {
    var master' := Put(master, y, x, c);
    var me := cl.(up := cl.up[1..]);
    MessagesStay(master, master', wr, wr, u, cl);
    ReplayFirst(master, cl.up, y, x, c);
    hide OwnMessage, ForeignMessage, Replay, Put, Cell, IsMessage;
    forall k | 0 <= k < |me.up|
      ensures OwnMessage(master', wr, u, me.up[k])
    {
      assert me.up[k] == cl.up[k + 1];
    }
    forall y': nat, x': nat | IsIn(master', y', x') && (u, y', x') !in wr
      ensures Cell(Replay(me.replica, me.down), y', x') == Cell(master', y', x')
    {
      OtherCell(master, y, x, c, y', x');
    }
  }

  /** Every other client, to which the line is relayed. */
  lemma ServeOther(master: Grid, v: int, cl: Client, wr: History, u: int, y: nat, x: nat, c: char)
    requires master.Valid() && cl.replica.Valid() && u != v
    requires cl.replica.numRows == master.numRows && cl.replica.numCols == master.numCols
    requires Agrees(master, v, cl, wr) && IsIn(master, y, x) && IsPrintable(c) && IsInt(y) && IsInt(x)
    requires (u, y, x) in wr
    ensures Agrees(Put(master, y, x, c), v, cl.(down := cl.down + [SetLine(y, x, c)]), wr)
  {
    hide OwnMessage, ForeignMessage;
    var line := SetLine(y, x, c);
    var master' := Put(master, y, x, c);
    MessagesStay(master, master', wr, wr, v, cl);
    ForeignLine(master', wr, v, u, y, x, c);
    forall y': nat, x': nat | IsIn(master, y', x') && (v, y', x') !in wr
      ensures Cell(Replay(cl.replica, cl.down + [line]), y', x') == Cell(master', y', x')
    {
      ReplayAppend(cl.replica, cl.down, line);
      ReadMessage(Replay(cl.replica, cl.down), line, y, x, c);
    }
    forall y': nat, x': nat | IsIn(master, y', x') && !SetByOther(wr, v, y', x')
      ensures Cell(Replay(master', cl.up), y', x') == Cell(cl.replica, y', x')
    {
      ReplayCellwise(master', master, cl.up, y', x');
    }
  }

  lemma ForeignLine(g: Grid, wr: History, v: int, u: int, y: nat, x: nat, c: char)
    requires IsIn(g, y, x) && IsPrintable(c) && IsInt(y) && IsInt(x) && (u, y, x) in wr && u != v
    ensures ForeignMessage(g, wr, v, SetLine(y, x, c)) && SetByOther(wr, v, y, x)
  {
    assert IsMessage(g, SetLine(y, x, c), y, x, c) && SetByOther(wr, v, y, x);
  }

  lemma ReplayHead(g: Grid, lines: seq<string>)
    requires g.Valid() && lines != []
    ensures Replay(g, lines) == Replay(Read(g, lines[0]), lines[1..])
  {}

  /** A client that reads a relayed line. */
  lemma ReceiveSelf(master: Grid, u: int, cl: Client, wr: History)
    requires master.Valid() && cl.replica.Valid()
    requires cl.replica.numRows == master.numRows && cl.replica.numCols == master.numCols
    requires Agrees(master, u, cl, wr) && cl.down != []
    ensures Agrees(master, u, cl.(replica := Read(cl.replica, cl.down[0]), down := cl.down[1..]), wr)
  {
    assert ForeignMessage(master, wr, u, cl.down[0]);
    var y: nat, x: nat, c :| IsMessage(master, cl.down[0], y, x, c) && SetByOther(wr, u, y, x);
    assert IsMessage(cl.replica, cl.down[0], y, x, c);
    hide OwnMessage, ForeignMessage, Read, IsMessage, SetByOther, Put, Cell, Replay;
    ReadMessage(cl.replica, cl.down[0], y, x, c);
    ReplayHead(cl.replica, cl.down);
    forall y': nat, x': nat | IsIn(master, y', x') && !SetByOther(wr, u, y', x')
      ensures Cell(Read(cl.replica, cl.down[0]), y', x') == Cell(cl.replica, y', x')
    {
      OtherCell(cl.replica, y, x, c, y', x');
    }
  }

  /** A client that has just joined. */
  lemma JoinSelf(master: Grid, u: int, wr: History)
    requires master.Valid() && forall m :: m in wr ==> m.0 != u
    ensures Agrees(master, u, Client(master, [], []), wr)
  {}

  /** The history after a step. */
  function Remember(wr: History, s: Step): History {
    match s
    case Edit(u, y, x, _) => wr + {(u, y, x)}
    case _ => wr
  }

  lemma EditKeeps(w: World, wr: History, u: int, y: nat, x: nat, c: char)
    requires Inv(w, wr) && Enabled(w, Edit(u, y, x, c))
    ensures Inv(Apply(w, Edit(u, y, x, c)), Remember(wr, Edit(u, y, x, c)))
  {
    hide Agrees;
    var v, wr' := Apply(w, Edit(u, y, x, c)), Remember(wr, Edit(u, y, x, c));
    SendComplete(y, x, c);
    forall t | t in v.clients
      ensures Agrees(v.master, t, v.clients[t], wr')
    {
      assert t in w.clients;
      if t == u {
        EditSelf(w.master, u, w.clients[u], wr, y, x, c);
      } else {
        EditOther(w.master, t, w.clients[t], wr, u, y, x);
      }
    }
  }

  lemma FirstLine(w: World, wr: History, u: int) returns (y: nat, x: nat, c: char)
    requires Inv(w, wr) && u in w.clients && w.clients[u].up != []
    ensures IsMessage(w.master, w.clients[u].up[0], y, x, c) && (u, y, x) in wr
    ensures Handle(w.master, w.clients[u].up[0]) == Answer(Put(w.master, y, x, c), [SetLine(y, x, c)])
  {
    var line := w.clients[u].up[0];
    assert Agrees(w.master, u, w.clients[u], wr) && OwnMessage(w.master, wr, u, line);
    y, x, c :| IsMessage(w.master, line, y, x, c) && (u, y, x) in wr;
    ReadMessage(w.master, line, y, x, c);
  }

  lemma PutPlain(g: Grid, y: nat, x: nat, c: char)
    requires g.Valid() && GridText.PlainGrid(g) && IsIn(g, y, x) && IsPrintable(c)
    ensures GridText.PlainGrid(Put(g, y, x, c))
  {
    var h := Put(g, y, x, c);
    forall i, j | IsIn(h, i, j)
      ensures GridText.Plain(Cell(h, i, j))
    {
      assert GridText.Plain(Cell(g, i, j));
    }
  }

  lemma ServeKeeps(w: World, wr: History, u: int)
    requires Inv(w, wr) && Enabled(w, Serve(u))
    ensures Inv(Apply(w, Serve(u)), wr)
  {
    var y, x, c := FirstLine(w, wr, u);
    ServeResult(w, u, y, x, c);
    ServeShape(w, wr, u, y, x, c);
    hide Agrees, Apply, Handle, IsMessage, Put, GridText.PlainGrid, Enabled;
    var v := Apply(w, Serve(u));
    forall t | t in w.clients
      ensures Agrees(v.master, t, v.clients[t], wr)
    {
      ServeAgrees(w, wr, u, y, x, c, t);
    }
  }

  lemma ServeShape(w: World, wr: History, u: int, y: nat, x: nat, c: char)
    requires Inv(w, wr) && Enabled(w, Serve(u)) && IsIn(w.master, y, x) && IsPrintable(c)
    requires Handle(w.master, w.clients[u].up[0]) == Answer(Put(w.master, y, x, c), [SetLine(y, x, c)])
    ensures var v := Apply(w, Serve(u)); Shaped(v) && GridText.PlainGrid(v.master)
  {
    hide Agrees;
    ServeResult(w, u, y, x, c);
    PutPlain(w.master, y, x, c);
  }

  lemma ServeAgrees(w: World, wr: History, u: int, y: nat, x: nat, c: char, t: int)
    requires Inv(w, wr) && Enabled(w, Serve(u)) && t in w.clients
    requires IsMessage(w.master, w.clients[u].up[0], y, x, c) && (u, y, x) in wr
    requires Handle(w.master, w.clients[u].up[0]) == Answer(Put(w.master, y, x, c), [SetLine(y, x, c)])
    requires Shaped(Apply(w, Serve(u)))
    ensures var v := Apply(w, Serve(u)); t in v.clients && Agrees(v.master, t, v.clients[t], wr)
  {
    ServeResult(w, u, y, x, c);
    hide Agrees, Apply, Handle, Put, GridText.PlainGrid;
    if t == u {
      ServeSelf(w.master, u, w.clients[u], wr, y, x, c);
    } else {
      ServeOther(w.master, t, w.clients[t], wr, u, y, x, c);
    }
  }

  lemma ServeResult(w: World, u: int, y: nat, x: nat, c: char)
    requires Shaped(w) && Enabled(w, Serve(u)) && IsIn(w.master, y, x) && IsPrintable(c)
    requires Handle(w.master, w.clients[u].up[0]) == Answer(Put(w.master, y, x, c), [SetLine(y, x, c)])
    ensures var v := Apply(w, Serve(u)); var me := w.clients[u];
            && v.master == Put(w.master, y, x, c) && v.nextUid == w.nextUid && v.clients.Keys == w.clients.Keys
            && v.clients[u] == me.(up := me.up[1..])
            && forall t :: t in w.clients && t != u ==> v.clients[t] == w.clients[t].(down := w.clients[t].down + [SetLine(y, x, c)])
  {}

  /** Every step keeps the invariant. */
  lemma StepKeeps(w: World, wr: History, s: Step)
    requires Inv(w, wr) && Enabled(w, s)
    ensures Inv(Apply(w, s), Remember(wr, s))
  {
    match s
    case Edit(u, y, x, c) => EditKeeps(w, wr, u, y, x, c);
    case Serve(u) => ServeKeeps(w, wr, u);
    case Receive(u) => ReceiveSelf(w.master, u, w.clients[u], wr);
    case Join =>
      SnapshotExact(w.master);
      JoinSelf(w.master, w.nextUid, wr);
    case Leave(u) =>
  }

  // ---------------------------------------------------------------------------
  // Runs
  // ---------------------------------------------------------------------------

  /** The steps can be taken one after another from w, and lead to v. */
  ghost predicate IsRun(w: World, steps: seq<Step>, v: World)
    decreases |steps|
  {
    if steps == [] then v == w
    else Shaped(w) && Enabled(w, steps[0]) && IsRun(Apply(w, steps[0]), steps[1..], v)
  }

  function Recall(wr: History, steps: seq<Step>): History
    decreases |steps|
  {
    if steps == [] then wr else Recall(Remember(wr, steps[0]), steps[1..])
  }

  lemma {:induction false} RunKeeps(w: World, wr: History, steps: seq<Step>, v: World)
    requires Inv(w, wr) && IsRun(w, steps, v)
    ensures Inv(v, Recall(wr, steps))
    decreases |steps|
  {
    if steps != [] {
      StepKeeps(w, wr, steps[0]);
      RunKeeps(Apply(w, steps[0]), Remember(wr, steps[0]), steps[1..], v);
    }
  }

  ghost predicate Sets(steps: seq<Step>, u: int, y: nat, x: nat) {
    exists k :: 0 <= k < |steps| && SetsCell(steps[k], u, y, x)
  }

  predicate SetsCell(s: Step, u: int, y: nat, x: nat) {
    s.Edit? && s.uid == u && s.y == y && s.x == x
  }

  lemma {:induction false} RecallSets(wr: History, steps: seq<Step>, u: int, y: nat, x: nat)
    ensures (u, y, x) in Recall(wr, steps) <==> (u, y, x) in wr || Sets(steps, u, y, x)
    decreases |steps|
  {
    if steps != [] {
      RecallSets(Remember(wr, steps[0]), steps[1..], u, y, x);
      if Sets(steps[1..], u, y, x) {
        var k :| 0 <= k < |steps[1..]| && SetsCell(steps[1..][k], u, y, x);
        assert SetsCell(steps[k + 1], u, y, x);
      }
      if Sets(steps, u, y, x) && !SetsCell(steps[0], u, y, x) {
        var k :| 0 <= k < |steps| && SetsCell(steps[k], u, y, x);
        assert steps[1..][k - 1] == steps[k];
      }
      assert SetsCell(steps[0], u, y, x) <==> Remember({}, steps[0]) == {(u, y, x)};
    }
  }

  /** The server before anyone has connected. */
  function Start(master: Grid): World { World(master, map[], 10) }

  ghost predicate StartOk(master: Grid) {
    master.Valid() && master.numRows < 0x8000_0000 && master.numCols < 0x8000_0000 && GridText.PlainGrid(master)
  }

  /** In every reachable state a client's canvas, after what is on its way to it, shows the
      master's character on every cell the client has never set. */
  lemma ReadersAgree(master: Grid, steps: seq<Step>, v: World, u: int, y: nat, x: nat)
    requires StartOk(master) && IsRun(Start(master), steps, v)
    requires u in v.clients && IsIn(v.master, y, x) && !Sets(steps, u, y, x)
    ensures Shaped(v) && Cell(Replay(v.clients[u].replica, v.clients[u].down), y, x) == Cell(v.master, y, x)
  {
    RunKeeps(Start(master), {}, steps, v);
    RecallSets({}, steps, u, y, x);
    assert Agrees(v.master, u, v.clients[u], Recall({}, steps));
  }

  /** Nobody else has ever set the cell. */
  ghost predicate SoleWriter(steps: seq<Step>, u: int, y: nat, x: nat) {
    forall t :: Sets(steps, t, y, x) ==> t == u
  }

  /** In every reachable state the master, after what is on its way from a client, shows that
      client's character on every cell that no other client has ever set. */
  lemma WritersAgree(master: Grid, steps: seq<Step>, v: World, u: int, y: nat, x: nat)
    requires StartOk(master) && IsRun(Start(master), steps, v)
    requires u in v.clients && IsIn(v.master, y, x) && SoleWriter(steps, u, y, x)
    ensures Shaped(v) && Cell(Replay(v.master, v.clients[u].up), y, x) == Cell(v.clients[u].replica, y, x)
  {
    RunKeeps(Start(master), {}, steps, v);
    var wr := Recall({}, steps);
    assert Agrees(v.master, u, v.clients[u], wr);
    if SetByOther(wr, u, y, x) {
      var t :| t != u && (t, y, x) in wr;
      RecallSets({}, steps, t, y, x);
      assert false;
    }
  }

  /** A client shows the same as the server once all lines between them are read, if nobody else
      has set the cells it has set. */
  lemma QuietMeansEqual(master: Grid, steps: seq<Step>, v: World, u: int)
    requires StartOk(master) && IsRun(Start(master), steps, v)
    requires u in v.clients && v.clients[u].up == [] && v.clients[u].down == []
    requires forall y: nat, x: nat :: Sets(steps, u, y, x) ==> SoleWriter(steps, u, y, x)
    ensures v.clients[u].replica == v.master
  {
    RunKeeps(Start(master), {}, steps, v);
    var r := v.clients[u].replica;
    forall y, x | IsIn(v.master, y, x)
      ensures Cell(r, y, x) == Cell(v.master, y, x)
    {
      if Sets(steps, u, y, x) {
        WritersAgree(master, steps, v, u, y, x);
      } else {
        ReadersAgree(master, steps, v, u, y, x);
      }
    }
    SameCells(r, v.master);
  }

  /** With one writer per cell, all canvases are the same once all lines are read. */
  lemma AllEqual(master: Grid, steps: seq<Step>, v: World)
    requires StartOk(master) && IsRun(Start(master), steps, v)
    requires forall u :: u in v.clients ==> v.clients[u].up == [] && v.clients[u].down == []
    requires forall u, y: nat, x: nat :: Sets(steps, u, y, x) ==> SoleWriter(steps, u, y, x)
    ensures forall u :: u in v.clients ==> v.clients[u].replica == v.master
  {
    forall u | u in v.clients
      ensures v.clients[u].replica == v.master
    {
      QuietMeansEqual(master, steps, v, u);
    }
  }

  /** A cell outside the canvas that passes the check, which looks neither for negative coordinates nor for
      the first row and column that are too many. */
  predicate SlipsThrough(g: Grid, y: int, x: int) {
    y <= g.numRows && x <= g.numCols && (y < 0 || x < 0 || y == g.numRows || x == g.numCols)
  }

  /** The lines that stop the server, by their words: a line of blanks, a set command that lacks a number, and
      one for a cell that slips through the check. What a line does is open if it has a number beyond `int`. */
  lemma StopsExactly(master: Grid, line: string)
    requires master.Valid()
    ensures var w := Words(Seen(line));
      Handle(master, line).Stopped? <==>
        if w == [] then Seen(line) != ""
        else w[0] == "s" && (|w| < 3 || (IsInt(Atoi(w[1])) && IsInt(Atoi(w[2])) && SlipsThrough(master, Atoi(w[1]), Atoi(w[2]))))
    ensures var w := Words(Seen(line));
      Handle(master, line).Undefined? <==> |w| >= 3 && w[0] == "s" && !(IsInt(Atoi(w[1])) && IsInt(Atoi(w[2])))
  {
    hide Words, Seen, ServerParse, Atoi, IsInt;
    ServerWords(line);
    NoWords();
  }

  /** The words of a line that sets a cell of the canvas. */
  predicate SetsInside(g: Grid, w: seq<string>) {
    |w| >= 3 && w[0] == "s" && IsInt(Atoi(w[1])) && IsInt(Atoi(w[2])) && IsIn(g, Atoi(w[1]), Atoi(w[2]))
  }

  /** What the server does with a line that does not stop it and is not open, by its words: a set command for a
      cell of the canvas puts the last character of the line there and relays just that; any other line changes
      nothing and is not relayed. */
  lemma AnswersExactly(master: Grid, line: string)
    requires master.Valid() && Handle(master, line).Answer?
    ensures var w, a := Words(Seen(line)), Handle(master, line);
      if SetsInside(master, w) then
        var y, x, c := Atoi(w[1]), Atoi(w[2]), Seen(line)[|Seen(line)| - 1];
        && a.relay == [SetLine(y, x, c)]
        && forall i: nat, j: nat :: IsIn(master, i, j) ==>
             Cell(a.master, i, j) == if i == y && j == x then c else Cell(master, i, j)
      else a.master == master && a.relay == []
  {
    hide Words, Seen, ServerParse, Atoi, IsInt, SetLine;
    ServerWords(line);
    NoWords();
    var w := Words(Seen(line));
    if SetsInside(master, w) {
      PutCells(master, Atoi(w[1]), Atoi(w[2]), Seen(line)[|Seen(line)| - 1]);
    }
  }

  lemma PutCells(g: Grid, y: nat, x: nat, c: char)
    requires g.Valid() && IsIn(g, y, x)
    ensures forall i: nat, j: nat :: IsIn(g, i, j) ==>
      Cell(Put(g, y, x, c), i, j) == if i == y && j == x then c else Cell(g, i, j)
  {}

  lemma NoWords()
    ensures Words("") == []
  {}

  /** Among the lines that name a cell, those are the lines for a negative row or column and for the row
      and the column behind the last ones, as far as C defines how the line is read. */
  lemma CellStops(master: Grid, y: int, x: int, c: char)
    requires master.Valid() && IsPrintable(c)
    ensures Handle(master, SetLine(y, x, c)).Stopped? <==> IsInt(y) && IsInt(x) && SlipsThrough(master, y, x)
    ensures Handle(master, SetLine(y, x, c)).Undefined? <==> !(IsInt(y) && IsInt(x))
  {
    ServerReads(y, x, c);
  }

  /** Whatever the canvas, there are such lines: a negative coordinate, the row or column behind the
      last, missing numbers, even behind a NUL. */
  lemma SomeLinesStop(master: Grid)
    requires master.Valid() && IsInt(master.numRows) && IsInt(master.numCols)
    ensures Handle(master, SetLine(-1, 0, 'a')).Stopped? && Handle(master, SetLine(0, -1, 'a')).Stopped?
    ensures Handle(master, SetLine(master.numRows, 0, 'a')).Stopped?
    ensures Handle(master, SetLine(0, master.numCols, 'a')).Stopped?
    ensures Handle(master, "s\n").Stopped? && Handle(master, "s" + [NUL] + " 1 2 a\n").Stopped?
    ensures Handle(master, " \n").Stopped?
  {
    hide Handle, SetLine, ServerParse, Words, Seen;
    CellStops(master, -1, 0, 'a');
    CellStops(master, 0, -1, 'a');
    CellStops(master, master.numRows, 0, 'a');
    CellStops(master, 0, master.numCols, 'a');
    StopsExactly(master, "s\n");
    StopsExactly(master, "s" + [NUL] + " 1 2 a\n");
    StopsExactly(master, " \n");
    ShortLines();
  }

  lemma ShortLines()
    ensures Seen("s\n") == "s" && Words("s") == ["s"]
    ensures Seen("s" + [NUL] + " 1 2 a\n") == "s"
    ensures Seen(" \n") == " " && Words(" ") == []
  {
    assert CStr("s\n") == "s\n" && Stripped("s\n") == "s" && Stripped("s") == "s";
    assert CStr("s" + [NUL] + " 1 2 a\n") == "s";
    assert CStr(" \n") == " \n" && Stripped(" \n") == " ";
  }
}
