/** The cache of open inodes: a reference-counted object per inode number, looked up again after the
    disk read, under every interleaving of opens and closes at their interrupt-off sections
    (kernel/fs/inode.c:10-66). */
module InodeCache {
  import opened Words

  /** A cached inode: its number and its open count. */
  datatype Obj = Obj(ino: nat, cnt: nat)

  /** Where a thread is: outside, with a private page for inode n before or after the disk read, or
      past the first test of a close. */
  datatype Pc = Outside | Reading(n: nat, page: nat) | Ready(n: nat, page: nat) | Closing(obj: nat)

  /** tree: inode number to object. held: the handles returned and not yet given to a close. */
  datatype State = State(tree: map<nat, nat>, objs: map<nat, Obj>, held: multiset<nat>, pcs: seq<Pc>)

  /** Open: the first section, with the page the allocator would give (0 for none). Read: whether the
      disk read succeeds. Insert: the second section. Close: the test of a handle's count. Drop: the
      section of a close. */
  datatype Move = Open(n: nat, page: nat) | Read(ok: bool) | Insert | Close(obj: nat) | Drop

  function Hit(st: State, n: nat): State
    requires n in st.tree && st.tree[n] in st.objs
  {
    var o := st.tree[n];
    st.(objs := st.objs[o := st.objs[o].(cnt := st.objs[o].cnt + 1)], held := st.held + multiset{o})
  }

  /** The page is in use by nobody. */
  predicate Unused(st: State, page: nat) {
    page !in st.objs && forall t | 0 <= t < |st.pcs| :: !Private(st.pcs[t], page)
  }

  predicate Private(pc: Pc, page: nat) {
    (pc.Reading? || pc.Ready?) && pc.page == page
  }

  /** Moves the code can make: a close gets a handle that is outstanding, a page is a free one. */
  predicate Can(st: State, t: nat, m: Move) {
    && t < |st.pcs|
    && match m
       case Open(n, page) => st.pcs[t] == Outside && (n !in st.tree && page != 0 ==> Unused(st, page))
       case Read(_) => st.pcs[t].Reading?
       case Insert => st.pcs[t].Ready?
       case Close(o) => st.pcs[t] == Outside && o in st.held
       case Drop => st.pcs[t].Closing?
  }

  predicate Shape(st: State) {
    && (forall n | n in st.tree :: st.tree[n] in st.objs)
    && (forall o | o in st.held :: o in st.objs)
    && (forall t | 0 <= t < |st.pcs| && st.pcs[t].Closing? :: st.pcs[t].obj in st.objs)
  }

  function Step(st: State, t: nat, m: Move): State
    requires Shape(st) && Can(st, t, m)
  {
    match m
    case Open(n, page) =>
      if n in st.tree then Hit(st, n)
      else if page == 0 then st
      else st.(pcs := st.pcs[t := Reading(n, page)])
    case Read(ok) =>
      st.(pcs := st.pcs[t := if ok then Ready(st.pcs[t].n, st.pcs[t].page) else Outside])
    case Insert =>
      var n, page := st.pcs[t].n, st.pcs[t].page;
      var out := st.(pcs := st.pcs[t := Outside]);
      if n in st.tree then Hit(out, n)
      else out.(tree := st.tree[n := page], objs := st.objs[page := Obj(n, 1)], held := st.held + multiset{page})
    case Close(o) =>
      if st.objs[o].cnt == 0 then st.(held := st.held - multiset{o})
      else st.(held := st.held - multiset{o}, pcs := st.pcs[t := Closing(o)])
    case Drop =>
      var o := st.pcs[t].obj;
      var out := st.(pcs := st.pcs[t := Outside]);
      var cnt := if st.objs[o].cnt == 0 then U32 - 1 else st.objs[o].cnt - 1;
      if cnt == 0 then out.(tree := st.tree - {st.objs[o].ino}, objs := st.objs - {o})
      else out.(objs := st.objs[o := st.objs[o].(cnt := cnt)])
  }

  // ----- the invariant

  /** How many closes are between their test and their section for object o. */
  function Closers(pcs: seq<Pc>, o: nat): nat {
    if pcs == [] then 0 else Closers(pcs[..|pcs| - 1], o) + (if pcs[|pcs| - 1] == Closing(o) then 1 else 0)
  }

  /** One object per inode number, in both directions. */
  ghost predicate OneEach(st: State) {
    && (forall n | n in st.tree :: st.tree[n] in st.objs && st.objs[st.tree[n]].ino == n)
    && (forall o | o in st.objs :: st.objs[o].ino in st.tree && st.tree[st.objs[o].ino] == o)
  }

  /** The open count is the number of handles outstanding or being closed, and never zero. */
  ghost predicate Counted(st: State) {
    && (forall o | o in st.objs :: st.objs[o].cnt == st.held[o] + Closers(st.pcs, o) && st.objs[o].cnt > 0)
    && (forall o | o !in st.objs :: st.held[o] + Closers(st.pcs, o) == 0)
  }

  /** A private page is no cached object and no other thread's page. */
  ghost predicate PagesApart(st: State) {
    && (forall t | 0 <= t < |st.pcs| && (st.pcs[t].Reading? || st.pcs[t].Ready?) :: st.pcs[t].page !in st.objs)
    && (forall t, u, p: nat | 0 <= t < |st.pcs| && 0 <= u < |st.pcs| && Private(st.pcs[t], p)
        && Private(st.pcs[u], p) :: t == u)
  }

  ghost predicate Inv(st: State) {
    OneEach(st) && Counted(st) && PagesApart(st)
  }

  lemma {:induction false} ClosersSet(pcs: seq<Pc>, t: nat, pc: Pc, o: nat)
    requires t < |pcs|
    ensures Closers(pcs[t := pc], o) ==
              Closers(pcs, o) - (if pcs[t] == Closing(o) then 1 else 0) + (if pc == Closing(o) then 1 else 0)
    ensures pcs[t] == Closing(o) ==> Closers(pcs, o) > 0
  {
    var n := |pcs| - 1;
    if t < n {
      assert pcs[t := pc][..n] == pcs[..n][t := pc];
      ClosersSet(pcs[..n], t, pc, o);
    } else {
      assert pcs[t := pc][..n] == pcs[..n];
    }
  }

  lemma InvShape(st: State)
    requires Inv(st)
    ensures Shape(st)
  {
    forall t | 0 <= t < |st.pcs| && st.pcs[t].Closing? ensures st.pcs[t].obj in st.objs {
      ClosersSet(st.pcs, t, Outside, st.pcs[t].obj);
    }
  }

  /** Another handle on a cached object. */
  lemma HitKeeps(st: State, n: nat)
    requires Inv(st) && n in st.tree
    ensures Inv(Hit(st, n))
  {
    hide Closers;
  }

  /** A thread moves without changing what is cached or held. */
  lemma MoveKeeps(st: State, t: nat, pc: Pc)
    requires Inv(st) && t < |st.pcs| && !st.pcs[t].Closing? && !pc.Closing?
    requires pc.Reading? || pc.Ready? ==> Private(st.pcs[t], pc.page) || Unused(st, pc.page)
    ensures Inv(st.(pcs := st.pcs[t := pc]))
  {
    hide Closers;
    forall o: nat ensures Closers(st.pcs[t := pc], o) == Closers(st.pcs, o) {
      ClosersSet(st.pcs, t, pc, o);
    }
  }

  /** A new object enters the cache with its first handle. */
  lemma InsertKeeps(st: State, n: nat, page: nat)
    requires Inv(st) && n !in st.tree && Unused(st, page)
    ensures Inv(st.(tree := st.tree[n := page], objs := st.objs[page := Obj(n, 1)], held := st.held + multiset{page}))
  {
    hide Closers, PagesApart;
    InsertApart(st, n, page);
  }

  lemma InsertApart(st: State, n: nat, page: nat)
    requires Inv(st) && n !in st.tree && Unused(st, page)
    ensures PagesApart(st.(tree := st.tree[n := page], objs := st.objs[page := Obj(n, 1)],
                           held := st.held + multiset{page}))
  {
    hide Closers, OneEach, Counted;
  }

  /** A handle goes from its holder to a close. */
  lemma CloseKeeps(st: State, t: nat, o: nat)
    requires Inv(st) && t < |st.pcs| && st.pcs[t] == Outside && o in st.held
    ensures o in st.objs && st.objs[o].cnt > 0
    ensures Inv(st.(held := st.held - multiset{o}, pcs := st.pcs[t := Closing(o)]))
  {
    hide Closers;
    forall x: nat ensures Closers(st.pcs[t := Closing(o)], x) == Closers(st.pcs, x) + (if x == o then 1 else 0) {
      ClosersSet(st.pcs, t, Closing(o), x);
    }
    var st' := st.(held := st.held - multiset{o}, pcs := st.pcs[t := Closing(o)]);
    assert PagesApart(st');
  }

  /** The counts without one closing thread. */
  lemma DropClosers(st: State, t: nat)
    requires Inv(st) && t < |st.pcs| && st.pcs[t].Closing?
    ensures st.pcs[t].obj in st.objs
    ensures forall x: nat ::
            Closers(st.pcs[t := Outside], x) == Closers(st.pcs, x) - (if x == st.pcs[t].obj then 1 else 0)
    ensures PagesApart(st.(pcs := st.pcs[t := Outside]))
  {
    hide Closers;
    InvShape(st);
    forall x: nat ensures Closers(st.pcs[t := Outside], x) ==
           Closers(st.pcs, x) - (if x == st.pcs[t].obj then 1 else 0) {
      ClosersSet(st.pcs, t, Outside, x);
    }
  }

  /** The section of a close: the object goes with its last handle. */
  lemma DropLast(st: State, t: nat)
    requires Inv(st) && t < |st.pcs| && st.pcs[t].Closing? && st.pcs[t].obj in st.objs
             && st.objs[st.pcs[t].obj].cnt == 1
    ensures var o := st.pcs[t].obj;
            Inv(st.(pcs := st.pcs[t := Outside], tree := st.tree - {st.objs[o].ino}, objs := st.objs - {o}))
  {
    hide Closers;
    DropClosers(st, t);
  }

  /** Otherwise the count drops. */
  lemma DropMore(st: State, t: nat)
    requires Inv(st) && t < |st.pcs| && st.pcs[t].Closing? && st.pcs[t].obj in st.objs && st.objs[st.pcs[t].obj].cnt > 1
    ensures var o := st.pcs[t].obj;
            Inv(st.(pcs := st.pcs[t := Outside], objs := st.objs[o := st.objs[o].(cnt := st.objs[o].cnt - 1)]))
  {
    hide Closers;
    DropClosers(st, t);
  }

  /** Every section of every thread keeps the invariant. */
  lemma StepKeepsInv(st: State, t: nat, m: Move)
    requires Inv(st) && Can(st, t, m)
    ensures Shape(st) && Inv(Step(st, t, m)) && |Step(st, t, m).pcs| == |st.pcs|
  {
    InvShape(st);
    hide Inv;
    match m {
      case Open(n, page) =>
        if n in st.tree {
          HitKeeps(st, n);
        } else if page != 0 {
          MoveKeeps(st, t, Reading(n, page));
        }
      case Read(ok) =>
        MoveKeeps(st, t, if ok then Ready(st.pcs[t].n, st.pcs[t].page) else Outside);
      case Insert =>
        var n, page := st.pcs[t].n, st.pcs[t].page;
        var out := st.(pcs := st.pcs[t := Outside]);
        MoveKeeps(st, t, Outside);
        if n in st.tree {
          HitKeeps(out, n);
        } else {
          PageFreed(st, t);
          InsertKeeps(out, n, page);
        }
      case Close(o) =>
        CloseKeeps(st, t, o);
      case Drop =>
        var o := st.pcs[t].obj;
        SomeHandle(st, o);
        if st.objs[o].cnt == 1 {
          DropLast(st, t);
        } else {
          DropMore(st, t);
        }
    }
  }

  lemma SomeHandle(st: State, o: nat)
    requires Inv(st) && o in st.objs
    ensures st.objs[o].cnt > 0
  {
  }

  lemma PageFreed(st: State, t: nat)
    requires Inv(st) && t < |st.pcs| && (st.pcs[t].Reading? || st.pcs[t].Ready?)
    ensures Unused(st.(pcs := st.pcs[t := Outside]), st.pcs[t].page)
  {
    var page := st.pcs[t].page;
    forall u | 0 <= u < |st.pcs| && u != t ensures !Private(st.pcs[u], page) {
      assert Private(st.pcs[t], page);
    }
  }

  /** The number that the move opens, if it is one that ends an open with a handle. */
  function Opened(st: State, t: nat, m: Move): Option<nat>
    requires Can(st, t, m)
  {
    match m
    case Open(n, _) => if n in st.tree then Some(n) else None
    case Insert => Some(st.pcs[t].n)
    case _ => None
  }

  /** An open that ends with a handle gives one more on the object cached for the number asked for. */
  lemma OpenGives(st: State, t: nat, m: Move, n: nat)
    requires Inv(st) && Can(st, t, m) && Opened(st, t, m) == Some(n)
    ensures Shape(st) && var st' := Step(st, t, m);
            && n in st'.tree && st'.tree[n] in st'.objs && st'.objs[st'.tree[n]].ino == n
            && st'.held == st.held + multiset{st'.tree[n]} && st'.pcs[t] == Outside
            && (n in st.tree ==> st'.tree == st.tree)
  {
    InvShape(st);
    hide Closers, Inv, Shape, Hit;
    if n in st.tree {
      HitGives(st, n, if m.Open? then st.pcs else st.pcs[t := Outside]);
      assert st == st.(pcs := st.pcs);
    }
  }

  /** No other move gives a handle, and a close takes the one it is given. */
  lemma NoneGiven(st: State, t: nat, m: Move)
    requires Inv(st) && Can(st, t, m) && Opened(st, t, m) == None
    ensures Shape(st) && Step(st, t, m).held == if m.Close? then st.held - multiset{m.obj} else st.held
  {
    InvShape(st);
    hide Closers, Inv, Shape, Hit;
  }

  lemma HitGives(st: State, n: nat, pcs: seq<Pc>)
    requires Inv(st) && n in st.tree
    ensures st.tree[n] in st.objs && var st' := Hit(st.(pcs := pcs), n);
            && st'.tree == st.tree && st'.pcs == pcs && st'.held == st.held + multiset{st.tree[n]}
            && st.tree[n] in st'.objs && st'.objs[st.tree[n]].ino == n
  {
    hide Closers;
  }

  /** The section of a close takes the number out of the cache exactly when no other handle is left, and
      never another number. */
  lemma CloseFrees(st: State, t: nat)
    requires Inv(st) && Can(st, t, Drop)
    ensures Shape(st) && var st', o := Step(st, t, Drop), st.pcs[t].obj;
            var n := st.objs[o].ino;
            && (n in st'.tree <==> st.held[o] + Closers(st.pcs, o) > 1)
            && (o in st'.objs <==> n in st'.tree)
            && forall x | x != n :: (x in st'.tree <==> x in st.tree) && (x in st.tree ==> st'.tree[x] == st.tree[x])
  {
    InvShape(st);
    hide Closers, PagesApart;
  }

  /** A run of moves the code can make, ending in r. */
  ghost predicate Run(st: State, moves: seq<(nat, Move)>, r: State)
    requires Inv(st)
    decreases moves
  {
    if moves == [] then r == st
    else
      && Can(st, moves[0].0, moves[0].1)
      && (StepKeepsInv(st, moves[0].0, moves[0].1);
          Run(Step(st, moves[0].0, moves[0].1), moves[1..], r))
  }

  lemma RunCons(st: State, t: nat, m: Move, moves: seq<(nat, Move)>, r: State)
    requires Inv(st) && Can(st, t, m) && Shape(st) && Inv(Step(st, t, m)) && Run(Step(st, t, m), moves, r)
    ensures Run(st, [(t, m)] + moves, r)
  {
    hide Inv, Step, Can, Shape;
    var all := [(t, m)] + moves;
    assert all[1..] == moves;
  }

  lemma RunNone(st: State)
    requires Inv(st)
    ensures Run(st, [], st)
  {
  }

  /** The cache with one more object, held once. */
  function Added(st: State, n: nat, page: nat): State {
    st.(tree := st.tree[n := page], objs := st.objs[page := Obj(n, 1)], held := st.held + multiset{page})
  }

  /** The state of a thread in the middle of an open. */
  function At(st: State, t: nat, pc: Pc): State
    requires t < |st.pcs|
  {
    st.(pcs := st.pcs[t := pc])
  }

  lemma Loads(st: State, t: nat, n: nat, page: nat)
    requires Inv(st) && t < |st.pcs| && st.pcs[t] == Outside && page != 0 && n !in st.tree && Unused(st, page)
    ensures Can(st, t, Open(n, page)) && Shape(st) && Step(st, t, Open(n, page)) == At(st, t, Reading(n, page))
    ensures Inv(At(st, t, Reading(n, page))) && At(At(st, t, Reading(n, page)), t, Outside) == st
  {
    hide Inv;
    StepKeepsInv(st, t, Open(n, page));
    assert st.pcs[t := Reading(n, page)][t := Outside] == st.pcs;
  }

  lemma ReadStep(st: State, t: nat, n: nat, page: nat)
    requires t < |st.pcs| && st.pcs[t] == Outside && n !in st.tree && Inv(st) && Inv(At(st, t, Reading(n, page)))
    ensures var s1, s2 := At(st, t, Reading(n, page)), At(st, t, Ready(n, page));
            && Shape(s1) && Can(s1, t, Read(true)) && Step(s1, t, Read(true)) == s2 && Inv(s2)
            && Can(s1, t, Read(false)) && Step(s1, t, Read(false)) == st
            && Shape(s2) && Can(s2, t, Insert) && Step(s2, t, Insert) == Added(st, n, page) && Inv(Added(st, n, page))
  {
    hide Inv;
    var s1, s2 := At(st, t, Reading(n, page)), At(st, t, Ready(n, page));
    StepKeepsInv(s1, t, Read(true));
    assert s1.pcs[t := Outside] == st.pcs == s2.pcs[t := Outside] && s1.pcs[t := Ready(n, page)] == s2.pcs;
    StepKeepsInv(s2, t, Insert);
  }

  /** An open of a number that is not cached, without interference: if the inode can be read, exactly that number is
      cached and held once more; if not, nothing has changed. */
  lemma OpenAlone(st: State, t: nat, n: nat, page: nat)
    requires Inv(st) && t < |st.pcs| && st.pcs[t] == Outside && page != 0 && n !in st.tree && Unused(st, page)
    ensures Run(st, [(t, Open(n, page)), (t, Read(true)), (t, Insert)], Added(st, n, page))
    ensures Run(st, [(t, Open(n, page)), (t, Read(false))], st)
  {
    hide Inv, Run, Unused;
    Loads(st, t, n, page);
    ReadStep(st, t, n, page);
    var s1, s2, s := At(st, t, Reading(n, page)), At(st, t, Ready(n, page)), Added(st, n, page);
    hide Step, Can, At, Added, Shape;
    var ins, fail := [(t, Insert)], [(t, Read(false))];
    assert ins + [] == ins && fail + [] == fail;
    RunNone(s);
    RunCons(s2, t, Insert, [], s);
    RunCons(s1, t, Read(true), ins, s);
    RunCons(st, t, Open(n, page), [(t, Read(true))] + ins, s);
    assert [(t, Open(n, page))] + ([(t, Read(true))] + ins) == [(t, Open(n, page)), (t, Read(true)), (t, Insert)];
    RunNone(st);
    RunCons(s1, t, Read(false), [], st);
    RunCons(st, t, Open(n, page), fail, st);
    assert [(t, Open(n, page))] + fail == [(t, Open(n, page)), (t, Read(false))];
  }

  /** Closing it again leaves the cache as it was before. */
  lemma CloseAlone(st: State, t: nat, n: nat, page: nat)
    requires Inv(st) && t < |st.pcs| && st.pcs[t] == Outside && page != 0 && n !in st.tree && Unused(st, page)
    ensures Inv(Added(st, n, page)) && Run(Added(st, n, page), [(t, Close(page)), (t, Drop)], st)
  {
    hide Inv, Run, Unused, Step, Can, Shape;
    OpenAlone(st, t, n, page);
    var s := Added(st, n, page);
    RunKeepsInv(st, [(t, Open(n, page)), (t, Read(true)), (t, Insert)], s);
    NotCached(st, n, page);
    var s1 := s.(held := st.held, pcs := st.pcs[t := Closing(page)]);
    Drops(st, t, n, page, s1);
    hide Added;
    RunNone(st);
    RunCons(s1, t, Drop, [], st);
    assert [(t, Drop)] + [] == [(t, Drop)];
    RunCons(s, t, Close(page), [(t, Drop)], st);
    assert [(t, Close(page))] + [(t, Drop)] == [(t, Close(page)), (t, Drop)];
  }

  lemma Drops(st: State, t: nat, n: nat, page: nat, s1: State)
    requires t < |st.pcs| && st.pcs[t] == Outside && n !in st.tree && page !in st.objs && Inv(Added(st, n, page))
    requires s1 == Added(st, n, page).(held := st.held, pcs := st.pcs[t := Closing(page)])
    ensures var s := Added(st, n, page);
            && Shape(s) && Can(s, t, Close(page)) && Step(s, t, Close(page)) == s1 && Inv(s1)
            && Shape(s1) && Can(s1, t, Drop) && Step(s1, t, Drop) == st && Inv(st)
  {
    var s := Added(st, n, page);
    InvShape(s);
    hide Inv;
    CloseStep(st, t, n, page, s1);
    StepKeepsInv(s, t, Close(page));
    InvShape(s1);
    DropStep(st, t, n, page, s1);
    StepKeepsInv(s1, t, Drop);
  }

  lemma CloseStep(st: State, t: nat, n: nat, page: nat, s1: State)
    requires t < |st.pcs| && st.pcs[t] == Outside && Shape(Added(st, n, page))
    requires s1 == Added(st, n, page).(held := st.held, pcs := st.pcs[t := Closing(page)])
    ensures Can(Added(st, n, page), t, Close(page)) && Step(Added(st, n, page), t, Close(page)) == s1
  {
    hide Shape;
    assert st.held + multiset{page} - multiset{page} == st.held;
  }

  lemma DropStep(st: State, t: nat, n: nat, page: nat, s1: State)
    requires t < |st.pcs| && st.pcs[t] == Outside && n !in st.tree && page !in st.objs && Shape(s1)
    requires s1 == Added(st, n, page).(held := st.held, pcs := st.pcs[t := Closing(page)])
    ensures Can(s1, t, Drop) && Step(s1, t, Drop) == st
  {
    hide Shape;
    assert s1.pcs[t := Outside] == st.pcs;
    assert st.tree[n := page] - {n} == st.tree && st.objs[page := Obj(n, 1)] - {page} == st.objs;
  }

  lemma NotCached(st: State, n: nat, page: nat)
    requires Inv(st) && Unused(st, page)
    ensures page !in st.objs
  {
  }

  lemma {:induction false} RunKeepsInv(st: State, moves: seq<(nat, Move)>, r: State)
    requires Inv(st) && Run(st, moves, r)
    ensures Inv(r)
    decreases moves
  {
    hide Inv, Step;
    if moves != [] {
      StepKeepsInv(st, moves[0].0, moves[0].1);
      RunKeepsInv(Step(st, moves[0].0, moves[0].1), moves[1..], r);
    }
  }

  predicate Initial(st: State) {
    st.tree == map[] && st.objs == map[] && st.held == multiset{} && forall t | 0 <= t < |st.pcs| ::
      st.pcs[t] == Outside
  }

  lemma {:induction false} NoClosers(pcs: seq<Pc>, o: nat)
    requires forall t | 0 <= t < |pcs| :: pcs[t] == Outside
    ensures Closers(pcs, o) == 0
  {
    if pcs != [] {
      NoClosers(pcs[..|pcs| - 1], o);
    }
  }

  lemma InitialInv(st: State)
    requires Initial(st)
    ensures Inv(st)
  {
    forall o: nat ensures Closers(st.pcs, o) == 0 {
      NoClosers(st.pcs, o);
    }
  }

  /** In every state of every interleaving: an inode number has at most one cached object, every
      handle points to a cached object, and the object's open count is the number of its handles. */
  lemma CacheCoherent(st: State, moves: seq<(nat, Move)>, r: State, o: nat, p: nat)
    requires Initial(st) && (InitialInv(st);
                             Run(st, moves, r))
    ensures o in r.objs && p in r.objs && r.objs[o].ino == r.objs[p].ino ==> o == p
    ensures o in r.held ==> o in r.objs && r.objs[o].ino in r.tree && r.tree[r.objs[o].ino] == o
    ensures o in r.objs ==> r.objs[o].cnt == r.held[o] + Closers(r.pcs, o) > 0
  {
    InitialInv(st);
    RunKeepsInv(st, moves, r);
  }
}
