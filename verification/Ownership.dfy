/** Who frees which MPI communicator: wrapper objects that own a handle, borrow it, or were moved from. */
module Ownership {
  import opened RankArithmetic
  import opened Sequences
  import opened Wrappers

  /** MPI_COMM_NULL, MPI_COMM_WORLD, or a communicator made by duplicating or splitting. */
  datatype Handle = Null | World | Made(id: nat)

  /** This process's place in a communicator. */
  datatype Group = Group(rank: nat, size: nat)

  /** What the MPI library knows: the communicators ever made, those still alive, those freed, in order. An
      attempt to free anything else than a live one that was made is an error. */
  datatype Library = Library(world: Group, groups: seq<Group>, live: set<nat>, freed: seq<nat>, failed: bool)

  predicate IsUsable(lib: Library, h: Handle) {
    h.World? || (h.Made? && h.id in lib.live && h.id < |lib.groups|)
  }

  function GroupOf(lib: Library, h: Handle): Group
    requires IsUsable(lib, h)
  {
    if h.World? then lib.world else lib.groups[h.id]
  }

  function AfterMaking(lib: Library, g: Group): Library {
    lib.(groups := lib.groups + [g], live := lib.live + {|lib.groups|})
  }

  function AfterFreeing(lib: Library, h: Handle): Library {
    if h.Made? && h.id in lib.live then lib.(live := lib.live - {h.id}, freed := lib.freed + [h.id])
    else lib.(failed := true)
  }

  /** The fields of a wrapper. */
  datatype Wrapper = Wrapper(rank: nat, size: nat, comm: Handle, root: nat, tag: int, owns: bool)

  function CopyOf(w: Wrapper, h: Handle): Wrapper {
    w.(comm := h, owns := true)
  }

  function MovedFrom(w: Wrapper): Wrapper {
    w.(comm := Null, owns := false)
  }

  function AfterDestruction(lib: Library, w: Wrapper): Library {
    if w.owns then AfterFreeing(lib, w.comm) else lib
  }

  // ----- the objects -----

  class Mpi {
    const world: Group
    var groups: seq<Group>
    var live: set<nat>
    var freed: seq<nat>
    var failed: bool

    constructor (world: Group)
      ensures View() == Library(world, [], {}, [], false)
    {
      this.world, groups, live, freed, failed := world, [], {}, [], false;
    }

    function View(): Library
      reads this
    {
      Library(world, groups, live, freed, failed)
    }

    /** MPI_Comm_dup and MPI_Comm_split: a new communicator. */
    method Make(g: Group) returns (h: Handle)
      modifies this
      ensures View() == AfterMaking(old(View()), g) && h == Made(|old(groups)|)
      ensures groups == old(groups) + [g] && live == old(live) + {|old(groups)|}
      ensures freed == old(freed) && failed == old(failed)
    {
      h := Made(|groups|);
      live := live + {|groups|};
      groups := groups + [g];
    }

    /** MPI_Comm_free: sets the handle to null. */
    method Free(h: Handle) returns (nulled: Handle)
      modifies this
      ensures View() == AfterFreeing(old(View()), h) && nulled == Null && groups == old(groups)
      ensures if h.Made? && h.id in old(live)
              then live == old(live) - {h.id} && freed == old(freed) + [h.id] && failed == old(failed)
              else live == old(live) && freed == old(freed) && failed
    {
      if h.Made? && h.id in live {
        live := live - {h.id};
        freed := freed + [h.id];
      } else {
        failed := true;
      }
      nulled := Null;
    }
  }

  class Communicator {
    var rank: nat
    var size: nat
    var comm: Handle
    var root: nat
    var tag: int
    var owns: bool

    function View(): Wrapper
      reads this
    {
      Wrapper(rank, size, comm, root, tag, owns)
    }

    /** Wraps a handle. The root is checked only by the setter that the constructor calls, see Construct. */
    constructor (mpi: Mpi, comm: Handle, takeOwnership: bool)
      requires IsUsable(mpi.View(), comm)
      ensures var group := GroupOf(mpi.View(), comm);
              View() == Wrapper(group.rank, group.size, comm, 0, 0, takeOwnership)
      ensures Group(rank, size) == if comm.World? then mpi.world else mpi.groups[comm.id]
      ensures this.comm == comm && root == 0 && tag == 0 && owns == takeOwnership
    {
      rank, size := GroupOf(mpi.View(), comm).rank, GroupOf(mpi.View(), comm).size;
      this.comm, root, tag, owns := comm, 0, 0, takeOwnership;
    }

    /** Copy constructor. */
    constructor Copy(mpi: Mpi, other: Communicator)
      requires IsUsable(mpi.View(), other.comm)
      modifies mpi
      ensures View() == CopyOf(old(other.View()), Made(|old(mpi.groups)|))
      ensures rank == old(other.rank) && size == old(other.size) && root == old(other.root) && tag == old(other.tag)
      ensures comm == Made(|old(mpi.groups)|) && owns
      ensures mpi.View() == AfterMaking(old(mpi.View()), GroupOf(old(mpi.View()), old(other.comm)))
      ensures other.View() == old(other.View())
    {
      var h := mpi.Make(GroupOf(mpi.View(), other.comm));
      rank, size, root, tag, owns := other.rank, other.size, other.root, other.tag, true;
      comm := h;
    }

    /** Move constructor. */
    constructor Move(other: Communicator)
      modifies other
      ensures View() == old(other.View()) && other.View() == MovedFrom(old(other.View()))
      ensures rank == old(other.rank) && size == old(other.size) && root == old(other.root) && tag == old(other.tag)
      ensures comm == old(other.comm) && owns == old(other.owns)
      ensures other.comm == Null && !other.owns && other.rank == old(other.rank) && other.size == old(other.size)
      ensures other.root == old(other.root) && other.tag == old(other.tag)
    {
      rank, size, comm, root, tag, owns := other.rank, other.size, other.comm, other.root, other.tag, other.owns;
      new;
      other.comm := Null;
      other.owns := false;
    }

    /** Destructor. */
    method Destroy(mpi: Mpi)
      modifies this, mpi
      ensures mpi.View() == AfterDestruction(old(mpi.View()), old(View()))
      ensures if old(owns) && old(comm).Made? && old(comm).id in old(mpi.live)
              then mpi.live == old(mpi.live) - {old(comm).id} && mpi.freed == old(mpi.freed) + [old(comm).id]
              else mpi.live == old(mpi.live) && mpi.freed == old(mpi.freed)
      ensures mpi.failed <==> old(mpi.failed) || (old(owns) && !(old(comm).Made? && old(comm).id in old(mpi.live)))
    {
      if owns {
        comm := mpi.Free(comm);
      }
    }

    method Swap(other: Communicator)
      modifies this, other
      ensures View() == old(other.View()) && other.View() == old(View())
      ensures rank == old(other.rank) && size == old(other.size) && comm == old(other.comm)
      ensures root == old(other.root) && tag == old(other.tag) && owns == old(other.owns)
      ensures other.rank == old(rank) && other.size == old(size) && other.comm == old(comm)
      ensures other.root == old(root) && other.tag == old(tag) && other.owns == old(owns)
    {
      rank, other.rank := other.rank, rank;
      size, other.size := other.size, size;
      comm, other.comm := other.comm, comm;
      tag, other.tag := other.tag, tag;
      root, other.root := other.root, root;
      owns, other.owns := other.owns, owns;
    }

    /** Move assignment. */
    method MoveAssign(other: Communicator)
      modifies this, other
      ensures View() == old(other.View()) && other.View() == old(View())
      ensures rank == old(other.rank) && size == old(other.size) && comm == old(other.comm)
      ensures root == old(other.root) && tag == old(other.tag) && owns == old(other.owns)
      ensures other.rank == old(rank) && other.size == old(size) && other.comm == old(comm)
      ensures other.root == old(root) && other.tag == old(tag) && other.owns == old(owns)
    {
      Swap(other);
    }

    /** Copy assignment: the temporary copy takes the old handle away and frees it. */
    method CopyAssign(mpi: Mpi, other: Communicator)
      requires IsUsable(mpi.View(), other.comm)
      modifies this, mpi
      ensures View() == CopyOf(old(other.View()), Made(|old(mpi.groups)|))
      ensures rank == old(other.rank) && size == old(other.size) && root == old(other.root) && tag == old(other.tag)
      ensures comm == Made(|old(mpi.groups)|) && owns
      ensures var making := AfterMaking(old(mpi.View()), GroupOf(old(mpi.View()), old(other.comm)));
              mpi.View() == AfterDestruction(making, old(View()))
      ensures other != this ==> other.View() == old(other.View())
    {
      var tmp := new Communicator.Copy(mpi, other);
      Swap(tmp);
      tmp.Destroy(mpi);
    }

    method Disown() returns (h: Handle)
      modifies this
      ensures View() == old(View()).(owns := false) && h == old(comm)
      ensures !owns && comm == old(comm) && rank == old(rank) && size == old(size) && root == old(root)
      ensures tag == old(tag)
    {
      owns := false;
      h := comm;
    }

    /** Fails, changing nothing, unless the new root is a rank of the communicator. */
    method SetRoot(newRoot: int) returns (ok: bool)
      modifies this
      ensures ok <==> 0 <= newRoot < old(size)
      ensures View() == if ok then old(View()).(root := newRoot) else old(View())
      ensures root == if ok then newRoot else old(root)
      ensures rank == old(rank) && size == old(size) && comm == old(comm) && tag == old(tag) && owns == old(owns)
    {
      ok := IsValidRank(newRoot, size);
      if ok {
        root := newRoot;
      }
    }
  }

  /** The constructor with a root. When the root is refused no wrapper comes into being, so the handle
      stays with the caller even if it was to be taken over. */
  method Construct(mpi: Mpi, comm: Handle, root: int, takeOwnership: bool) returns (c: Communicator?)
    requires IsUsable(mpi.View(), comm)
    ensures mpi.View() == old(mpi.View())
    ensures c != null <==> 0 <= root < (if comm.World? then mpi.world else mpi.groups[comm.id]).size
    ensures c != null ==> fresh(c) && Some(c.View()) == Constructed(mpi.View(), comm, root, takeOwnership)
    ensures c != null ==> Group(c.rank, c.size) == if comm.World? then mpi.world else mpi.groups[comm.id]
    ensures c != null ==> c.comm == comm && c.root == root && c.tag == 0 && c.owns == takeOwnership
  {
    c := new Communicator(mpi, comm, takeOwnership);
    var ok := c.SetRoot(root);
    if !ok {
      c := null;
    }
  }

  function Constructed(lib: Library, comm: Handle, root: int, takeOwnership: bool): Option<Wrapper>
    requires IsUsable(lib, comm)
  {
    var g := GroupOf(lib, comm);
    if IsValidRank(root, g.size) then Some(Wrapper(g.rank, g.size, comm, root, 0, takeOwnership)) else None
  }

  /** split and its relatives: a wrapper that owns the new communicator, with root 0. */
  method Split(mpi: Mpi, parent: Communicator, part: Group) returns (c: Communicator)
    requires IsUsable(mpi.View(), parent.comm)
    modifies mpi
    ensures fresh(c) && c.View() == SplitOff(|old(mpi.groups)|, part)
    ensures mpi.View() == AfterMaking(old(mpi.View()), part)
    ensures c.rank == part.rank && c.size == part.size && c.comm == Made(|old(mpi.groups)|)
    ensures c.root == 0 && c.tag == 0 && c.owns
    ensures mpi.groups == old(mpi.groups) + [part] && mpi.live == old(mpi.live) + {|old(mpi.groups)|}
    ensures parent.View() == old(parent.View())
  {
    var h := mpi.Make(part);
    c := new Communicator(mpi, h, true);
  }

  function SplitOff(id: nat, part: Group): Wrapper {
    Wrapper(part.rank, part.size, Made(id), 0, 0, true)
  }

  // ----- programs that use them -----

  /** A program's wrappers by name, and the live handles whose release is its own business because no
      wrapper owns them. */
  datatype State = State(lib: Library, wrappers: map<nat, Wrapper>, loose: set<nat>)

  datatype Step =
    | MakeHandle(g: Group)
    | FreeHandle(id: nat)
    | New(name: nat, comm: Handle, root: int, takeOwnership: bool)
    | NewCopy(name: nat, other: nat)
    | NewMoved(name: nat, other: nat)
    | NewSplit(name: nat, other: nat, part: Group)
    | Destruct(name: nat)
    | SwapWith(name: nat, other: nat)
    | AssignMoved(name: nat, other: nat)
    | AssignCopy(name: nat, other: nat)
    | Release(name: nat)
    | ChangeRoot(name: nat, root: int)

  predicate IsGroup(g: Group) {
    g.rank < g.size
  }

  /** What the library demands of the program: it takes ownership of, and frees, only handles that are its
      own; it makes new communicators only from usable ones; and it names objects that exist. */
  predicate IsAllowed(s: State, step: Step) {
    match step
    case MakeHandle(g) => IsGroup(g)
    case FreeHandle(id) => id in s.loose
    case New(name, comm, root, own) =>
      name !in s.wrappers && IsUsable(s.lib, comm) && (own ==> comm.Made? && comm.id in s.loose)
    case NewCopy(name, other) => name !in s.wrappers && other in s.wrappers && IsUsable(s.lib, s.wrappers[other].comm)
    case NewMoved(name, other) => name !in s.wrappers && other in s.wrappers
    case NewSplit(name, other, part) =>
      name !in s.wrappers && other in s.wrappers && IsUsable(s.lib, s.wrappers[other].comm) && IsGroup(part)
    case Destruct(name) => name in s.wrappers
    case SwapWith(name, other) => name in s.wrappers && other in s.wrappers
    case AssignMoved(name, other) => name in s.wrappers && other in s.wrappers
    case AssignCopy(name, other) => name in s.wrappers && other in s.wrappers && IsUsable(s.lib, s.wrappers[other].comm)
    case Release(name) => name in s.wrappers
    case ChangeRoot(name, _) => name in s.wrappers
  }

  function Swapped(ws: map<nat, Wrapper>, a: nat, b: nat): map<nat, Wrapper>
    requires a in ws && b in ws
  {
    ws[a := ws[b]][b := ws[a]]
  }

  function Apply(s: State, step: Step): State
    requires IsAllowed(s, step)
  {
    var ws := s.wrappers;
    match step
    case MakeHandle(g) => s.(lib := AfterMaking(s.lib, g), loose := s.loose + {|s.lib.groups|})
    case FreeHandle(id) => s.(lib := AfterFreeing(s.lib, Made(id)), loose := s.loose - {id})
    case New(name, comm, root, own) =>
      (match Constructed(s.lib, comm, root, own)
       case None => s
       case Some(w) => s.(wrappers := ws[name := w], loose := if own then s.loose - {comm.id} else s.loose))
    case NewCopy(name, other) =>
      s.(lib := AfterMaking(s.lib, GroupOf(s.lib, ws[other].comm)),
         wrappers := ws[name := CopyOf(ws[other], Made(|s.lib.groups|))])
    case NewMoved(name, other) => s.(wrappers := ws[name := ws[other]][other := MovedFrom(ws[other])])
    case NewSplit(name, other, part) =>
      s.(lib := AfterMaking(s.lib, part), wrappers := ws[name := SplitOff(|s.lib.groups|, part)])
    case Destruct(name) => s.(lib := AfterDestruction(s.lib, ws[name]), wrappers := ws - {name})
    case SwapWith(name, other) => s.(wrappers := Swapped(ws, name, other))
    case AssignMoved(name, other) => s.(wrappers := Swapped(ws, name, other))
    case AssignCopy(name, other) =>
      s.(lib := AfterDestruction(AfterMaking(s.lib, GroupOf(s.lib, ws[other].comm)), ws[name]),
         wrappers := ws[name := CopyOf(ws[other], Made(|s.lib.groups|))])
    case Release(name) =>
      s.(wrappers := ws[name := ws[name].(owns := false)],
         loose := if ws[name].owns && ws[name].comm.Made? then s.loose + {ws[name].comm.id} else s.loose)
    case ChangeRoot(name, root) =>
      if IsValidRank(root, ws[name].size) then s.(wrappers := ws[name := ws[name].(root := root)]) else s
  }

  // ----- what every run keeps -----

  predicate Owns(w: Wrapper, id: nat) {
    w.owns && w.comm == Made(id)
  }

  /** The library's books: every communicator ever made is either alive or was freed, once. */
  ghost predicate LibraryIsGood(lib: Library) {
    && !lib.failed && IsGroup(lib.world) && Distinct(lib.freed)
    && (forall id {:trigger lib.groups[id]} | 0 <= id < |lib.groups| :: IsGroup(lib.groups[id]))
    && (forall id: nat :: id in lib.live ==> id < |lib.groups|)
    && (forall id: nat :: id in lib.freed ==> id < |lib.groups|)
    && forall id: nat | id < |lib.groups| :: id in lib.live <==> id !in lib.freed
  }

  /** A wrapper knows its place in its communicator although it never asks again, and its root is a rank. */
  predicate WrapperIsGood(lib: Library, w: Wrapper) {
    && w.rank < w.size && w.root < w.size
    && (w.comm.World? ==> lib.world == Group(w.rank, w.size))
    && (w.comm.Made? ==> w.comm.id < |lib.groups| && lib.groups[w.comm.id] == Group(w.rank, w.size))
    && (w.owns ==> w.comm.Made? && w.comm.id in lib.live)
  }

  /** Every live communicator is loose or owned by exactly one wrapper, and no wrapper owns anything else. */
  ghost predicate OwnersAreGood(ws: map<nat, Wrapper>, live: set<nat>, loose: set<nat>) {
    && loose <= live
    && (forall a :: a in ws && ws[a].owns ==> ws[a].comm.Made? && ws[a].comm.id in live - loose)
    && (forall a, b :: a in ws && b in ws && a != b && ws[a].owns && ws[b].owns ==> ws[a].comm != ws[b].comm)
    && forall id: nat | id in live - loose :: exists a :: a in ws && Owns(ws[a], id)
  }

  ghost predicate Invariant(s: State) {
    && LibraryIsGood(s.lib)
    && (forall name :: name in s.wrappers ==> WrapperIsGood(s.lib, s.wrappers[name]))
    && OwnersAreGood(s.wrappers, s.lib.live, s.loose)
  }

  lemma MakingKeepsLibrary(lib: Library, g: Group)
    requires LibraryIsGood(lib) && IsGroup(g)
    ensures LibraryIsGood(AfterMaking(lib, g))
  {
    var lib' := AfterMaking(lib, g);
    forall id | 0 <= id < |lib'.groups| ensures IsGroup(lib'.groups[id]) {
      assert id < |lib.groups| ==> lib'.groups[id] == lib.groups[id];
    }
  }

  lemma MakingKeepsWrapper(lib: Library, g: Group, w: Wrapper)
    requires WrapperIsGood(lib, w)
    ensures WrapperIsGood(AfterMaking(lib, g), w)
  {}

  lemma FreeingKeepsLibrary(lib: Library, id: nat)
    requires LibraryIsGood(lib) && id in lib.live
    ensures LibraryIsGood(AfterFreeing(lib, Made(id)))
    ensures AfterFreeing(lib, Made(id)).live == lib.live - {id}
    ensures AfterFreeing(lib, Made(id)).freed == lib.freed + [id]
  {}

  lemma FreeingKeepsWrapper(lib: Library, id: nat, w: Wrapper)
    requires WrapperIsGood(lib, w) && !Owns(w, id)
    ensures WrapperIsGood(AfterFreeing(lib, Made(id)), w)
  {}

  lemma OwnerAdded(ws: map<nat, Wrapper>, live: set<nat>, loose: set<nat>, name: nat, w: Wrapper, live': set<nat>,
      loose': set<nat>)
    requires OwnersAreGood(ws, live, loose) && (name in ws ==> !ws[name].owns)
    requires w.owns && w.comm.Made? && w.comm.id in live' - loose' && w.comm.id !in live - loose
    requires loose' <= live' && live' - loose' == (live - loose) + {w.comm.id}
    ensures OwnersAreGood(ws[name := w], live', loose')
  {
    var ws' := ws[name := w];
    forall id: nat | id in live' - loose' ensures exists a :: a in ws' && Owns(ws'[a], id) {
      if id == w.comm.id {
        assert Owns(ws'[name], id);
      } else {
        var a :| a in ws && Owns(ws[a], id);
        assert Owns(ws'[a], id);
      }
    }
  }

  lemma OwnerRemoved(ws: map<nat, Wrapper>, live: set<nat>, loose: set<nat>, name: nat,
      ws': map<nat, Wrapper>, live': set<nat>, loose': set<nat>)
    requires OwnersAreGood(ws, live, loose) && name in ws && ws[name].owns && ws[name].comm.Made?
    requires forall a :: a in ws' && a != name ==> a in ws && ws'[a] == ws[a]
    requires forall a :: a in ws && a != name ==> a in ws'
    requires name in ws' ==> !ws'[name].owns
    requires loose' <= live' && live' - loose' == (live - loose) - {ws[name].comm.id}
    ensures OwnersAreGood(ws', live', loose')
  {
    forall id: nat | id in live' - loose' ensures exists a :: a in ws' && Owns(ws'[a], id) {
      var a :| a in ws && Owns(ws[a], id);
      assert Owns(ws'[a], id);
    }
  }

  /** Nothing changes hands. */
  lemma SameOwners(ws: map<nat, Wrapper>, live: set<nat>, loose: set<nat>, ws': map<nat, Wrapper>, live': set<nat>,
      loose': set<nat>)
    requires OwnersAreGood(ws, live, loose)
    requires forall a :: a in ws && ws[a].owns ==> a in ws' && ws'[a].owns && ws'[a].comm == ws[a].comm
    requires forall a :: a in ws' && ws'[a].owns ==> a in ws && ws[a].owns && ws'[a].comm == ws[a].comm
    requires loose' <= live' && live' - loose' == live - loose
    ensures OwnersAreGood(ws', live', loose')
  {
    forall id: nat | id in live' - loose' ensures exists a :: a in ws' && Owns(ws'[a], id) {
      var a :| a in ws && Owns(ws[a], id);
      assert Owns(ws'[a], id);
    }
  }

  function Renamed(name: nat, other: nat, a: nat): nat {
    if a == name then other else if a == other then name else a
  }

  /** Two names trade places. */
  lemma OwnersSwapped(ws: map<nat, Wrapper>, live: set<nat>, loose: set<nat>, name: nat, other: nat)
    requires OwnersAreGood(ws, live, loose) && name in ws && other in ws
    ensures OwnersAreGood(Swapped(ws, name, other), live, loose)
  {
    var ws' := Swapped(ws, name, other);
    forall id: nat | id in live - loose ensures exists a :: a in ws' && Owns(ws'[a], id) {
      var a :| a in ws && Owns(ws[a], id);
      var b := Renamed(name, other, a);
      assert b in ws' && ws'[b] == ws[a];
    }
    forall a, b | a in ws' && b in ws' && a != b && ws'[a].owns && ws'[b].owns ensures ws'[a].comm != ws'[b].comm {
      assert ws'[a] == ws[Renamed(name, other, a)] && ws'[b] == ws[Renamed(name, other, b)];
    }
    forall a | a in ws' && ws'[a].owns ensures ws'[a].comm.Made? && ws'[a].comm.id in live - loose {
      assert ws'[a] == ws[Renamed(name, other, a)];
    }
  }

  /** What one owned another owns now. */
  lemma OwnerMoved(ws: map<nat, Wrapper>, live: set<nat>, loose: set<nat>, name: nat, other: nat)
    requires OwnersAreGood(ws, live, loose) && name !in ws && other in ws
    ensures OwnersAreGood(ws[name := ws[other]][other := MovedFrom(ws[other])], live, loose)
  {
    var ws' := ws[name := ws[other]][other := MovedFrom(ws[other])];
    forall id: nat | id in live - loose ensures exists a :: a in ws' && Owns(ws'[a], id) {
      var a :| a in ws && Owns(ws[a], id);
      assert Owns(ws'[if a == other then name else a], id);
    }
  }

  lemma MakingKeepsWrappers(lib: Library, g: Group, ws: map<nat, Wrapper>)
    requires forall a :: a in ws ==> WrapperIsGood(lib, ws[a])
    ensures forall a :: a in ws ==> WrapperIsGood(AfterMaking(lib, g), ws[a])
  {
    forall a | a in ws ensures WrapperIsGood(AfterMaking(lib, g), ws[a]) {
      MakingKeepsWrapper(lib, g, ws[a]);
    }
  }

  lemma FreshIsNotLive(lib: Library)
    requires LibraryIsGood(lib)
    ensures |lib.groups| !in lib.live
  {}

  /** A new owning wrapper around a new communicator. */
  lemma NewOwnerKeeps(s: State, g: Group, name: nat, w: Wrapper)
    requires Invariant(s) && IsGroup(g) && (name in s.wrappers ==> !s.wrappers[name].owns)
    requires w.owns && w.comm == Made(|s.lib.groups|) && w.root < w.size && g == Group(w.rank, w.size)
    ensures Invariant(s.(lib := AfterMaking(s.lib, g), wrappers := s.wrappers[name := w]))
  {
    var live' := AfterMaking(s.lib, g).live;
    MakingKeepsLibrary(s.lib, g);
    MakingKeepsWrappers(s.lib, g, s.wrappers);
    FreshIsNotLive(s.lib);
    assert live' - s.loose == (s.lib.live - s.loose) + {w.comm.id};
    OwnerAdded(s.wrappers, s.lib.live, s.loose, name, w, live', s.loose);
  }

  lemma MakeHandleKeeps(s: State, g: Group)
    requires Invariant(s) && IsAllowed(s, MakeHandle(g))
    ensures Invariant(Apply(s, MakeHandle(g)))
  {
    var s' := Apply(s, MakeHandle(g));
    MakingKeepsLibrary(s.lib, g);
    MakingKeepsWrappers(s.lib, g, s.wrappers);
    FreshIsNotLive(s.lib);
    assert s'.lib.live - s'.loose == s.lib.live - s.loose;
    SameOwners(s.wrappers, s.lib.live, s.loose, s.wrappers, s'.lib.live, s'.loose);
  }

  lemma FreeHandleKeeps(s: State, id: nat)
    requires Invariant(s) && IsAllowed(s, FreeHandle(id))
    ensures Invariant(Apply(s, FreeHandle(id)))
  {
    var s' := Apply(s, FreeHandle(id));
    FreeingKeepsLibrary(s.lib, id);
    assert s'.lib.live - s'.loose == s.lib.live - s.loose;
    SameOwners(s.wrappers, s.lib.live, s.loose, s.wrappers, s'.lib.live, s'.loose);
    forall a | a in s.wrappers ensures WrapperIsGood(s'.lib, s.wrappers[a]) {
      FreeingKeepsWrapper(s.lib, id, s.wrappers[a]);
    }
  }

  lemma NewKeeps(s: State, name: nat, comm: Handle, root: int, own: bool)
    requires Invariant(s) && IsAllowed(s, New(name, comm, root, own))
    ensures Invariant(Apply(s, New(name, comm, root, own)))
  {
    var s' := Apply(s, New(name, comm, root, own));
    match Constructed(s.lib, comm, root, own)
    case None =>
    case Some(w) =>
      if own {
        assert s.lib.live - s'.loose == (s.lib.live - s.loose) + {comm.id};
        OwnerAdded(s.wrappers, s.lib.live, s.loose, name, w, s.lib.live, s'.loose);
      } else {
        SameOwners(s.wrappers, s.lib.live, s.loose, s'.wrappers, s.lib.live, s.loose);
      }
  }

  /** A wrapper disappears, and with it what it owned. */
  lemma DestructKeeps(s: State, name: nat)
    requires Invariant(s) && name in s.wrappers
    ensures Invariant(Apply(s, Destruct(name)))
  {
    var w, ws' := s.wrappers[name], s.wrappers - {name};
    if w.owns {
      var id := w.comm.id;
      FreeingKeepsLibrary(s.lib, id);
      forall a | a in ws' ensures WrapperIsGood(AfterFreeing(s.lib, w.comm), ws'[a]) {
        FreeingKeepsWrapper(s.lib, id, s.wrappers[a]);
      }
      assert s.lib.live - {id} - s.loose == (s.lib.live - s.loose) - {id};
      OwnerRemoved(s.wrappers, s.lib.live, s.loose, name, ws', s.lib.live - {id}, s.loose);
    } else {
      SameOwners(s.wrappers, s.lib.live, s.loose, ws', s.lib.live, s.loose);
    }
  }

  lemma ReleaseKeeps(s: State, name: nat)
    requires Invariant(s) && name in s.wrappers
    ensures Invariant(Apply(s, Release(name)))
  {
    var s', w := Apply(s, Release(name)), s.wrappers[name];
    if w.owns {
      assert s.lib.live - s'.loose == (s.lib.live - s.loose) - {w.comm.id};
      OwnerRemoved(s.wrappers, s.lib.live, s.loose, name, s'.wrappers, s.lib.live, s'.loose);
    } else {
      assert s'.wrappers == s.wrappers;
    }
  }

  /** Copy assignment is a copy under a name of its own, a swap and a destruction. */
  lemma AssignCopyIsCopyAndSwap(s: State, name: nat, other: nat, tmp: nat)
    requires IsAllowed(s, AssignCopy(name, other)) && tmp !in s.wrappers
    ensures IsAllowed(s, NewCopy(tmp, other)) && IsAllowed(Apply(s, NewCopy(tmp, other)), SwapWith(name, tmp))
    ensures IsAllowed(Apply(Apply(s, NewCopy(tmp, other)), SwapWith(name, tmp)), Destruct(tmp))
    ensures Apply(s, AssignCopy(name, other))
         == Apply(Apply(Apply(s, NewCopy(tmp, other)), SwapWith(name, tmp)), Destruct(tmp))
  {
    var c := CopyOf(s.wrappers[other], Made(|s.lib.groups|));
    var ws2 := Swapped(s.wrappers[tmp := c], name, tmp);
    assert ws2[tmp] == s.wrappers[name];
    assert ws2 - {tmp} == s.wrappers[name := c];
  }

  lemma SwapKeeps(s: State, name: nat, other: nat)
    requires Invariant(s) && IsAllowed(s, SwapWith(name, other))
    ensures Invariant(Apply(s, SwapWith(name, other))) && Invariant(Apply(s, AssignMoved(name, other)))
  {
    OwnersSwapped(s.wrappers, s.lib.live, s.loose, name, other);
  }

  lemma NewCopyKeeps(s: State, name: nat, other: nat)
    requires Invariant(s) && IsAllowed(s, NewCopy(name, other))
    ensures Invariant(Apply(s, NewCopy(name, other)))
  {
    var w := s.wrappers[other];
    assert WrapperIsGood(s.lib, w);
    NewOwnerKeeps(s, GroupOf(s.lib, w.comm), name, CopyOf(w, Made(|s.lib.groups|)));
  }

  lemma AssignCopyKeeps(s: State, name: nat, other: nat, tmp: nat)
    requires Invariant(s) && IsAllowed(s, AssignCopy(name, other)) && tmp !in s.wrappers
    ensures Invariant(Apply(s, AssignCopy(name, other)))
  {
    AssignCopyIsCopyAndSwap(s, name, other, tmp);
    assert Invariant(Apply(Apply(s, NewCopy(tmp, other)), SwapWith(name, tmp))) by {
      NewCopyKeeps(s, tmp, other);
      SwapKeeps(Apply(s, NewCopy(tmp, other)), name, tmp);
    }
    DestructKeeps(Apply(Apply(s, NewCopy(tmp, other)), SwapWith(name, tmp)), tmp);
  }

  lemma SomeOtherName(ws: map<nat, Wrapper>) returns (name: nat)
    ensures name !in ws
  {
    SubsetCardinality(ws.Keys * Range(|ws| + 1), ws.Keys);
    if Range(|ws| + 1) <= ws.Keys {
      SubsetCardinality(Range(|ws| + 1), ws.Keys);
      assert false;
    }
    name :| name in Range(|ws| + 1) && name !in ws.Keys;
  }

  /** No step of a program that keeps to the rules breaks the invariant. */
  lemma StepKeepsInvariant(s: State, step: Step)
    requires Invariant(s) && IsAllowed(s, step)
    ensures Invariant(Apply(s, step))
  {
    match step
    case MakeHandle(g) => MakeHandleKeeps(s, g);
    case FreeHandle(id) => FreeHandleKeeps(s, id);
    case New(name, comm, root, own) => NewKeeps(s, name, comm, root, own);
    case NewCopy(name, other) => NewCopyKeeps(s, name, other);
    case NewMoved(name, other) => OwnerMoved(s.wrappers, s.lib.live, s.loose, name, other);
    case NewSplit(name, _, part) => NewOwnerKeeps(s, part, name, SplitOff(|s.lib.groups|, part));
    case Destruct(name) => DestructKeeps(s, name);
    case SwapWith(name, other) => SwapKeeps(s, name, other);
    case AssignMoved(name, other) => SwapKeeps(s, name, other);
    case AssignCopy(name, other) =>
      var tmp := SomeOtherName(s.wrappers);
      AssignCopyKeeps(s, name, other, tmp);
    case Release(name) => ReleaseKeeps(s, name);
    case ChangeRoot(name, root) =>
      SameOwners(s.wrappers, s.lib.live, s.loose, Apply(s, step).wrappers, s.lib.live, s.loose);
  }

  // ----- what a step does, field by field -----

  /** ws' is ws but for the wrapper of one name. */
  ghost predicate DiffersIn(ws: map<nat, Wrapper>, ws': map<nat, Wrapper>, name: nat, w: Wrapper) {
    && name in ws' && ws'[name] == w
    && (forall a :: a in ws ==> a in ws')
    && forall a :: a in ws' && a != name ==> a in ws && ws'[a] == ws[a]
  }

  ghost predicate TradedPlaces(ws: map<nat, Wrapper>, ws': map<nat, Wrapper>, name: nat, other: nat)
    requires name in ws && other in ws
  {
    && ws'.Keys == ws.Keys
    && ws'[name] == ws[other] && ws'[other] == ws[name]
    && forall a :: a in ws && a != name && a != other ==> ws'[a] == ws[a]
  }

  /** A copy, constructed or assigned, has the rank, size, root and tag of the other and owns a new communicator. */
  lemma CopyStepsCopy(s: State, step: Step)
    requires IsAllowed(s, step) && (step.NewCopy? || step.AssignCopy?)
    ensures var w := s.wrappers[step.other];
            DiffersIn(s.wrappers, Apply(s, step).wrappers, step.name,
                      Wrapper(w.rank, w.size, Made(|s.lib.groups|), w.root, w.tag, true))
  {}

  /** What the other steps do to the wrappers. */
  lemma WrappersAfterStep(s: State, step: Step)
    requires IsAllowed(s, step) && !step.NewCopy? && !step.AssignCopy?
    ensures var ws, ws' := s.wrappers, Apply(s, step).wrappers;
      match step
      case New(name, comm, root, own) =>
        var g := if comm.World? then s.lib.world else s.lib.groups[comm.id];
        if 0 <= root < g.size then DiffersIn(ws, ws', name, Wrapper(g.rank, g.size, comm, root, 0, own)) else ws' == ws
      case NewMoved(name, other) =>
        var w := ws[other];
        && ws'.Keys == ws.Keys + {name} && ws'[name] == w
        && ws'[other] == Wrapper(w.rank, w.size, Null, w.root, w.tag, false)
        && forall a :: a in ws && a != other ==> ws'[a] == ws[a]
      case NewSplit(name, other, part) =>
        DiffersIn(ws, ws', name, Wrapper(part.rank, part.size, Made(|s.lib.groups|), 0, 0, true))
      case Destruct(name) => ws'.Keys == ws.Keys - {name} && forall a :: a in ws' ==> ws'[a] == ws[a]
      case SwapWith(name, other) => TradedPlaces(ws, ws', name, other)
      case AssignMoved(name, other) => TradedPlaces(ws, ws', name, other)
      case Release(name) =>
        var w := ws[name];
        DiffersIn(ws, ws', name, Wrapper(w.rank, w.size, w.comm, w.root, w.tag, false))
      case ChangeRoot(name, root) =>
        var w := ws[name];
        if 0 <= root < w.size then DiffersIn(ws, ws', name, Wrapper(w.rank, w.size, w.comm, root, w.tag, w.owns))
        else ws' == ws
      case _ => ws' == ws
  {}

  /** The communicators that a step makes: a copy's has the rank and size the original knows. */
  function MadeIn(s: State, step: Step): seq<Group>
    requires IsAllowed(s, step)
  {
    match step
    case MakeHandle(g) => [g]
    case NewCopy(_, other) => [Group(s.wrappers[other].rank, s.wrappers[other].size)]
    case AssignCopy(_, other) => [Group(s.wrappers[other].rank, s.wrappers[other].size)]
    case NewSplit(_, _, part) => [part]
    case _ => []
  }

  /** The communicators that a step frees: what the program frees itself, and what a wrapper owned that is
      destroyed or assigned a copy. */
  function FreedIn(s: State, step: Step): seq<nat>
    requires IsAllowed(s, step)
  {
    match step
    case FreeHandle(id) => [id]
    case Destruct(name) =>
      if s.wrappers[name].owns && s.wrappers[name].comm.Made? then [s.wrappers[name].comm.id] else []
    case AssignCopy(name, _) =>
      if s.wrappers[name].owns && s.wrappers[name].comm.Made? then [s.wrappers[name].comm.id] else []
    case _ => []
  }

  /** What a step does to the library's books. */
  lemma LibraryAfterStep(s: State, step: Step)
    requires Invariant(s) && IsAllowed(s, step)
    ensures var lib, made, freed := Apply(s, step).lib, MadeIn(s, step), FreedIn(s, step);
            && lib.world == s.lib.world && !lib.failed
            && lib.groups == s.lib.groups + made && lib.freed == s.lib.freed + freed
            && forall id: nat :: id in lib.live <==>
                 (id in s.lib.live || (made != [] && id == |s.lib.groups|)) && id !in freed
  {
    match step
    case NewCopy(_, other) => assert WrapperIsGood(s.lib, s.wrappers[other]);
    case AssignCopy(name, other) =>
      assert WrapperIsGood(s.lib, s.wrappers[other]) && WrapperIsGood(s.lib, s.wrappers[name]);
    case Destruct(name) => assert WrapperIsGood(s.lib, s.wrappers[name]);
    case _ =>
  }

  /** What a step does to the handles the program keeps for itself. */
  lemma LooseAfterStep(s: State, step: Step)
    requires Invariant(s) && IsAllowed(s, step)
    ensures var loose := Apply(s, step).loose;
      match step
      case MakeHandle(_) => loose == s.loose + {|s.lib.groups|}
      case FreeHandle(id) => loose == s.loose - {id}
      case New(name, comm, _, own) =>
        loose == if own && name in Apply(s, step).wrappers then s.loose - {comm.id} else s.loose
      case Release(name) =>
        loose == if s.wrappers[name].owns then s.loose + {s.wrappers[name].comm.id} else s.loose
      case _ => loose == s.loose
  {}

  // ----- whole runs -----

  function Start(world: Group): State {
    State(Library(world, [], {}, [], false), map[], {})
  }

  predicate IsProgram(world: Group, states: seq<State>, steps: seq<Step>) {
    && IsGroup(world) && |states| == |steps| + 1 && states[0] == Start(world)
    && forall i | 0 <= i < |steps| :: IsAllowed(states[i], steps[i]) && states[i + 1] == Apply(states[i], steps[i])
  }

  lemma {:induction false} ProgramKeepsInvariant(world: Group, states: seq<State>, steps: seq<Step>, i: nat)
    requires IsProgram(world, states, steps) && i < |states|
    ensures Invariant(states[i])
  {
    if i > 0 {
      ProgramKeepsInvariant(world, states, steps, i - 1);
      StepKeepsInvariant(states[i - 1], steps[i - 1]);
    }
  }

  ghost predicate IsOwned(s: State, id: nat) {
    exists a :: a in s.wrappers && Owns(s.wrappers[a], id)
  }

  /** At any time every communicator ever made is in exactly one of three states: owned by a wrapper; loose;
      or freed, exactly once. */
  lemma EveryHandleAccountedFor(world: Group, states: seq<State>, steps: seq<Step>, i: nat, id: nat)
    requires IsProgram(world, states, steps) && i < |states| && id < |states[i].lib.groups|
    ensures multiset(states[i].lib.freed)[id] == if IsOwned(states[i], id) || id in states[i].loose then 0 else 1
    ensures !(IsOwned(states[i], id) && id in states[i].loose)
  {
    var s := states[i];
    ProgramKeepsInvariant(world, states, steps, i);
    DistinctMultiplicity(s.lib.freed, id);
    assert id in s.lib.freed <==> id in multiset(s.lib.freed);
    assert IsOwned(s, id) ==> id in s.lib.live - s.loose;
    assert id in s.lib.live - s.loose ==> IsOwned(s, id);
  }

  /** No communicator has two owners. */
  lemma OwnerIsUnique(world: Group, states: seq<State>, steps: seq<Step>, i: nat, id: nat, a: nat, b: nat)
    requires IsProgram(world, states, steps) && i < |states| && a in states[i].wrappers && b in states[i].wrappers
    requires Owns(states[i].wrappers[a], id) && Owns(states[i].wrappers[b], id)
    ensures a == b
  {
    ProgramKeepsInvariant(world, states, steps, i);
  }

  /** Nothing is freed twice, and no null or predefined handle is freed, in any run. */
  lemma NoInvalidFree(world: Group, states: seq<State>, steps: seq<Step>, i: nat)
    requires IsProgram(world, states, steps) && i < |states|
    ensures !states[i].lib.failed
  {
    ProgramKeepsInvariant(world, states, steps, i);
  }

  /** When all wrappers are gone, everything has been freed exactly once but what the program has kept for itself. */
  lemma NothingLeaks(world: Group, states: seq<State>, steps: seq<Step>, i: nat)
    requires IsProgram(world, states, steps) && i < |states| && states[i].wrappers == map[]
    ensures states[i].lib.live == states[i].loose
    ensures forall id: nat | id < |states[i].lib.groups| && id !in states[i].loose ::
      multiset(states[i].lib.freed)[id] == 1
  {
    var s := states[i];
    ProgramKeepsInvariant(world, states, steps, i);
    forall id: nat | id < |s.lib.groups| && id !in s.loose ensures multiset(s.lib.freed)[id] == 1 {
      EveryHandleAccountedFor(world, states, steps, i, id);
    }
    assert forall id | id in s.lib.live :: id in s.loose;
  }

  /** Every wrapper, moved from or not, has a root that is a rank, and its rank and size are those of what it wraps. */
  lemma WrappersStayConsistent(world: Group, states: seq<State>, steps: seq<Step>, i: nat, name: nat)
    requires IsProgram(world, states, steps) && i < |states| && name in states[i].wrappers
    ensures var w := states[i].wrappers[name];
            && IsValidRank(w.root, w.size)
            && (IsUsable(states[i].lib, w.comm) ==> GroupOf(states[i].lib, w.comm) == Group(w.rank, w.size))
  {
    ProgramKeepsInvariant(world, states, steps, i);
  }
}
