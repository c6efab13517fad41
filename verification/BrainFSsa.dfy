// The emitted code is well-formed: every block ends in one terminator, every register has one
// definition, a phi has exactly one entry for each predecessor of its block, and on every path a
// definition comes before its uses.
module BrainFSsa {
  import opened BrainFIr
  import opened BrainFCode

  function Defs(i: Instr): set<Reg> {
    match i
    case Malloc(dst) => {dst}
    case Gep(dst, _, _) => {dst}
    case CallGetChar(dst) => {dst}
    case Trunc(dst, _) => {dst}
    case SExt(dst, _) => {dst}
    case Load(dst, _) => {dst}
    case AddConst(dst, _, _) => {dst}
    case CmpUge(dst, _, _) => {dst}
    case CmpUlt(dst, _, _) => {dst}
    case OrBits(dst, _, _) => {dst}
    case IsZero(dst, _) => {dst}
    case _ => {}
  }

  function Uses(i: Instr): set<Reg> {
    match i
    case Malloc(_) => {}
    case Memset(ptr, _) => {ptr}
    case Gep(_, ptr, _) => {ptr}
    case CallGetChar(_) => {}
    case CallPutChar(arg) => {arg}
    case Trunc(_, src) => {src}
    case SExt(_, src) => {src}
    case Load(_, ptr) => {ptr}
    case Store(src, ptr) => {src, ptr}
    case AddConst(_, src, _) => {src}
    case CmpUge(_, a, b) => {a, b}
    case CmpUlt(_, a, b) => {a, b}
    case OrBits(_, a, b) => {a, b}
    case IsZero(_, src) => {src}
    case CallFree(ptr) => {ptr}
    case CallPuts => {}
  }

  function PhiDefs(f: Phi): set<Reg> {
    if f.Phi? then {f.dst} else {}
  }

  function TermUses(t: Term): set<Reg> {
    if t.CondBr? then {t.cond} else {}
  }

  function Targets(t: Term): set<Label> {
    match t
    case Br(to) => {to}
    case CondBr(_, yes, no) => {yes, no}
    case _ => {}
  }

  /** The registers that the first n instructions define. */
  function BodyDefs(body: seq<Instr>, n: nat): set<Reg>
    requires n <= |body|
  {
    if n == 0 then {} else BodyDefs(body, n - 1) + Defs(body[n - 1])
  }

  /** Registers known before instruction n when those in `live` are known on entry. */
  function Known(b: Block, live: set<Reg>, n: nat): set<Reg>
    requires n <= |b.body|
  {
    live + PhiDefs(b.phi) + BodyDefs(b.body, n)
  }

  function Out(b: Block, live: set<Reg>): set<Reg> {
    Known(b, live, |b.body|)
  }

  // ---------------------------------------------------------------- what well-formed means

  /** What position i of a block defines; the phi is at position -1. */
  function DefsAt(b: Block, i: int): set<Reg> {
    if i == -1 then PhiDefs(b.phi) else if 0 <= i < |b.body| then Defs(b.body[i]) else {}
  }

  predicate Defines(b: Block, i: int, r: Reg) {
    r in DefsAt(b, i)
  }

  predicate Edge(bs: seq<Block>, a: Label, b: Label) {
    a < |bs| && b < |bs| && b in Targets(bs[a].term)
  }

  ghost predicate IsPath(bs: seq<Block>, path: seq<Label>) {
    && |path| > 0 && path[0] == 0 && 0 < |bs|
    && forall k {:trigger path[k]} :: 0 <= k < |path| - 1 ==> Edge(bs, path[k], path[k + 1])
  }

  /** Everything defined in the blocks of a path. */
  function DefinedOn(bs: seq<Block>, path: seq<Label>): set<Reg> {
    if path == [] then {}
    else DefinedOn(bs, path[..|path| - 1])
         + (if path[|path| - 1] < |bs| then Out(bs[path[|path| - 1]], {}) else {})
  }

  /** The phi takes only known registers from block `from`. */
  ghost predicate Handed(f: Phi, from: Label, known: set<Reg>) {
    f.Phi? ==> forall j :: 0 <= j < |f.incoming| && f.incoming[j].0 == from ==> f.incoming[j].1 in known
  }

  /** Along the path, every use in its last block has been defined, and so has what that block
      hands to the phis of its successors. */
  ghost predicate UsesDefined(bs: seq<Block>, path: seq<Label>)
    requires IsPath(bs, path) && path[|path| - 1] < |bs|
  {
    var b := bs[path[|path| - 1]];
    var before := DefinedOn(bs, path[..|path| - 1]);
    && (forall i :: 0 <= i < |b.body| ==> Uses(b.body[i]) <= Known(b, before, i))
    && TermUses(b.term) <= Out(b, before)
    && (forall t: Label {:trigger Edge(bs, path[|path| - 1], t)} :: Edge(bs, path[|path| - 1], t) ==>
          Handed(bs[t].phi, path[|path| - 1], Out(b, before)))
  }

  function Labels(inc: seq<(Label, Reg)>): seq<Label> {
    seq(|inc|, i requires 0 <= i < |inc| => inc[i].0)
  }

  predicate AllDistinct(ls: seq<Label>) {
    forall i, j :: 0 <= i < j < |ls| ==> ls[i] != ls[j]
  }

  /** Exactly one entry for each predecessor. */
  ghost predicate PhiFits(bs: seq<Block>, t: Label)
    requires t < |bs| && bs[t].phi.Phi?
  {
    AllDistinct(Labels(bs[t].phi.incoming)) && forall b :: b in Labels(bs[t].phi.incoming) <==> Edge(bs, b, t)
  }

  ghost predicate Terminated(bs: seq<Block>) {
    forall b :: 0 <= b < |bs| ==> bs[b].term != Open && forall t :: t in Targets(bs[b].term) ==> t < |bs|
  }

  ghost predicate SingleDefinition(bs: seq<Block>) {
    forall a: Label, i: int, b: Label, j: int, r: Reg {:trigger Defines(bs[a], i, r), Defines(bs[b], j, r)} ::
      a < |bs| && b < |bs| && Defines(bs[a], i, r) && Defines(bs[b], j, r) ==> a == b && i == j
  }

  ghost predicate WellFormed(bs: seq<Block>) {
    && Terminated(bs) && SingleDefinition(bs)
    && (forall t :: 0 <= t < |bs| && bs[t].phi.Phi? ==> PhiFits(bs, t))
    && (forall path :: IsPath(bs, path) && path[|path| - 1] < |bs| ==> UsesDefined(bs, path))
  }

  // ---------------------------------------------------------------- a certificate

  datatype Site = Site(block: Label, idx: int)

  /** Registers known on entry to each block, its predecessors in order, and where registers are defined. */
  datatype Cert = Cert(live: seq<set<Reg>>, preds: seq<seq<Label>>, site: map<Reg, Site>)

  ghost predicate BlockKnown(b: Block, live: set<Reg>) {
    && (forall i :: 0 <= i < |b.body| ==> Uses(b.body[i]) <= Known(b, live, i))
    && TermUses(b.term) <= Out(b, live)
  }

  ghost predicate BlockSites(b: Block, at: Label, site: map<Reg, Site>, next: Reg) {
    forall i: int, r: Reg :: Defines(b, i, r) ==> r < next && r in site && site[r] == Site(at, i)
  }

  /** What a branch from b to t hands over is known at the end of b. */
  ghost predicate EdgeKnown(bs: seq<Block>, live: seq<set<Reg>>, b: Label, t: Label)
    requires |live| == |bs| && b < |bs| && t < |bs|
  {
    live[t] <= Out(bs[b], live[b]) && Handed(bs[t].phi, b, Out(bs[b], live[b]))
  }

  ghost predicate PredsFit(bs: seq<Block>, preds: seq<seq<Label>>, t: Label)
    requires |preds| == |bs| && t < |bs|
  {
    && (forall b :: b in preds[t] <==> Edge(bs, b, t))
    && (bs[t].phi.Phi? ==> AllDistinct(preds[t]) && Labels(bs[t].phi.incoming) == preds[t])
  }

  ghost predicate Certified(bs: seq<Block>, next: Reg, k: Cert) {
    && |k.live| == |k.preds| == |bs| > 0 && k.live[0] == {}
    && (forall b :: 0 <= b < |bs| ==> BlockKnown(bs[b], k.live[b]) && BlockSites(bs[b], b, k.site, next))
    && (forall b, t {:trigger t in Targets(bs[b].term)} :: 0 <= b < |bs| && t in Targets(bs[b].term) ==>
          t < |bs| && EdgeKnown(bs, k.live, b, t))
    && (forall t :: 0 <= t < |bs| ==> PredsFit(bs, k.preds, t))
  }

  lemma {:induction false} OutMonotone(b: Block, live: set<Reg>, live': set<Reg>, n: nat)
    requires n <= |b.body| && live <= live'
    ensures Known(b, live, n) <= Known(b, live', n)
  {
  }

  /** What the certificate calls live is defined on every path. */
  lemma {:induction false} LiveIsDefined(bs: seq<Block>, next: Reg, k: Cert, path: seq<Label>)
    requires Certified(bs, next, k) && IsPath(bs, path) && path[|path| - 1] < |bs|
    ensures k.live[path[|path| - 1]] <= DefinedOn(bs, path[..|path| - 1])
    decreases |path|
  {
    if |path| > 1 {
      hide BlockKnown, BlockSites, PredsFit;
      var init := path[..|path| - 1];
      var a, b := path[|path| - 2], path[|path| - 1];
      assert forall i :: 0 <= i < |init| ==> init[i] == path[i];
      assert Edge(bs, a, b);
      LiveIsDefined(bs, next, k, init);
      assert init[..|init| - 1] == path[..|path| - 2];
      assert b in Targets(bs[a].term) && EdgeKnown(bs, k.live, a, b);
      assert Out(bs[a], k.live[a]) == k.live[a] + Out(bs[a], {});
    }
  }

  lemma PathUses(bs: seq<Block>, next: Reg, k: Cert, path: seq<Label>)
    requires Certified(bs, next, k) && IsPath(bs, path) && path[|path| - 1] < |bs|
    ensures UsesDefined(bs, path)
  {
    hide BlockSites, PredsFit, BodyDefs, DefinedOn;
    LiveIsDefined(bs, next, k, path);
    var a := path[|path| - 1];
    var before := DefinedOn(bs, path[..|path| - 1]);
    var b := bs[a];
    assert BlockKnown(b, k.live[a]);
    forall i | 0 <= i <= |b.body|
      ensures Known(b, k.live[a], i) <= Known(b, before, i)
    {
      OutMonotone(b, k.live[a], before, i);
    }
    forall t: Label | Edge(bs, a, t)
      ensures Handed(bs[t].phi, a, Out(b, before))
    {
      assert t in Targets(bs[a].term) && EdgeKnown(bs, k.live, a, t);
    }
  }

  lemma CertifiedSingle(bs: seq<Block>, next: Reg, k: Cert)
    requires Certified(bs, next, k)
    ensures SingleDefinition(bs)
  {
    hide BlockKnown, EdgeKnown, PredsFit, Defines, Targets;
    forall a: Label, i: int, b: Label, j: int, r: Reg | a < |bs| && b
        < |bs| && Defines(bs[a], i, r) && Defines(bs[b], j, r)
      ensures a == b && i == j
    {
      assert BlockSites(bs[a], a, k.site, next) && BlockSites(bs[b], b, k.site, next);
      assert k.site[r] == Site(a, i) && k.site[r] == Site(b, j);
    }
  }

  /** Certified code without open blocks is well-formed. */
  lemma CertifiedIsWellFormed(bs: seq<Block>, next: Reg, k: Cert)
    requires Certified(bs, next, k) && forall b :: 0 <= b < |bs| ==> bs[b].term != Open
    ensures WellFormed(bs)
  {
    hide UsesDefined, BlockKnown, BlockSites, EdgeKnown, SingleDefinition, Defines, Targets;
    forall path | IsPath(bs, path) && path[|path| - 1] < |bs|
      ensures UsesDefined(bs, path)
    {
      PathUses(bs, next, k, path);
    }
    CertifiedSingle(bs, next, k);
    forall t | 0 <= t < |bs| && bs[t].phi.Phi?
      ensures PhiFits(bs, t)
    {
      assert PredsFit(bs, k.preds, t);
    }
  }

  // ---------------------------------------------------------------- one instruction more

  function Added(bs: seq<Block>, b: Label, instrs: seq<Instr>): seq<Block>
    requires b < |bs|
  {
    bs[b := bs[b].(body := bs[b].body + instrs)]
  }

  /** The next register, if the instruction defines it. */
  function After(next: Reg, i: Instr): Reg {
    if Defs(i) == {} then next else next + 1
  }

  /** Every instruction uses only what is known by then and defines nothing but the next register. */
  predicate InOrder(instrs: seq<Instr>, known: set<Reg>, next: Reg, next': Reg) {
    if instrs == [] then next' == next
    else
      && Uses(instrs[0]) <= known && Defs(instrs[0]) <= {next}
      && InOrder(instrs[1..], known + Defs(instrs[0]), After(next, instrs[0]), next')
  }

  lemma {:induction false} BodyDefsPrefix(body: seq<Instr>, more: seq<Instr>, n: nat)
    requires n <= |body|
    ensures BodyDefs(body + more, n) == BodyDefs(body, n)
    decreases n
  {
    if n > 0 {
      BodyDefsPrefix(body, more, n - 1);
    }
  }

  lemma LastDefs(body: seq<Instr>, i: Instr)
    ensures BodyDefs(body + [i], |body| + 1) == BodyDefs(body + [i], |body|) + Defs(i)
  {
    assert (body + [i])[|body|] == i;
  }

  lemma BlockGains(b: Block, i: Instr, live: set<Reg>)
    requires BlockKnown(b, live) && b.term == Open && Uses(i) <= Out(b, live)
    ensures var b' := b.(body := b.body + [i]); BlockKnown(b', live) && Out(b', live) == Out(b, live) + Defs(i)
  {
    hide Defs, Uses, BodyDefs;
    var b' := b.(body := b.body + [i]);
    forall n | 0 <= n <= |b.body|
      ensures BodyDefs(b'.body, n) == BodyDefs(b.body, n)
    {
      BodyDefsPrefix(b.body, [i], n);
    }
    LastDefs(b.body, i);
    assert b'.body[|b.body|] == i && forall n :: 0 <= n < |b.body| ==> b'.body[n] == b.body[n];
    assert TermUses(b.term) == {};
  }

  lemma OnlyMember<T>(s: set<T>, x: T, y: T)
    requires x in s && s <= {y}
    ensures s != {} && x == y
  {
  }

  lemma SitesGain(b: Block, i: Instr, at: Label, site: map<Reg, Site>, next: Reg)
    requires BlockSites(b, at, site, next) && Defs(i) <= {next}
    ensures var site' := if Defs(i) == {} then site else site[next := Site(at, |b.body|)];
            BlockSites(b.(body := b.body + [i]), at, site', After(next, i))
  {
    hide Defs;
    var b' := b.(body := b.body + [i]);
    var site' := if Defs(i) == {} then site else site[next := Site(at, |b.body|)];
    forall n: int, r: Reg | Defines(b', n, r)
      ensures r < After(next, i) && r in site' && site'[r] == Site(at, n)
    {
      if n == |b.body| {
        OnlyMember(Defs(i), r, next);
      } else {
        assert DefsAt(b', n) == DefsAt(b, n) && Defines(b, n, r);
      }
    }
  }

  lemma SitesStay(b: Block, at: Label, site: map<Reg, Site>, next: Reg, s: Site)
    requires BlockSites(b, at, site, next)
    ensures BlockSites(b, at, site, next + 1) && BlockSites(b, at, site[next := s], next + 1)
  {
  }

  function Defined(k: Cert, next: Reg, i: Instr, s: Site): Cert {
    if Defs(i) == {} then k else k.(site := k.site[next := s])
  }

  lemma OneAdded(bs: seq<Block>, next: Reg, k: Cert, b: Label, i: Instr)
    requires Certified(bs, next, k) && b < |bs| && bs[b].term == Open
    requires Uses(i) <= Out(bs[b], k.live[b]) && Defs(i) <= {next}
    ensures var bs' := Added(bs, b, [i]);
            && Certified(bs', After(next, i), Defined(k, next, i, Site(b, |bs[b].body|)))
            && Out(bs'[b], k.live[b]) == Out(bs[b], k.live[b]) + Defs(i)
  {
    hide BlockKnown, BlockSites, Known, Defines, Handed, Labels, AllDistinct, Uses;
    var bs', k' := Added(bs, b, [i]), Defined(k, next, i, Site(b, |bs[b].body|));
    BlockGains(bs[b], i, k.live[b]);
    SitesGain(bs[b], i, b, k.site, next);
    forall x | 0 <= x < |bs'|
      ensures BlockKnown(bs'[x], k'.live[x]) && BlockSites(bs'[x], x, k'.site, After(next, i))
    {
      if x != b {
        SitesStay(bs[x], x, k.site, next, Site(b, |bs[b].body|));
      }
    }
    forall x, t | 0 <= x < |bs'| && t in Targets(bs'[x].term)
      ensures t < |bs'| && EdgeKnown(bs', k'.live, x, t)
    {
      assert t in Targets(bs[x].term) && EdgeKnown(bs, k.live, x, t);
    }
    forall t | 0 <= t < |bs'|
      ensures PredsFit(bs', k'.preds, t)
    {
      assert PredsFit(bs, k.preds, t);
      assert forall x: Label :: Edge(bs', x, t) <==> Edge(bs, x, t);
    }
  }

  /** Appending instructions that are in order to a block that is still open. */
  lemma {:induction false} AllAdded(bs: seq<Block>, next: Reg, k: Cert, b: Label, instrs: seq<Instr>, next': Reg)
    returns (k': Cert)
    requires Certified(bs, next, k) && b < |bs| && bs[b].term == Open
    requires InOrder(instrs, Out(bs[b], k.live[b]), next, next')
    ensures Certified(Added(bs, b, instrs), next', k') && k'.live == k.live && k'.preds == k.preds
    ensures Out(bs[b], k.live[b]) <= Out(Added(bs, b, instrs)[b], k.live[b])
    decreases |instrs|
  {
    hide Certified, Out, Defs, Uses;
    if instrs == [] {
      assert bs[b].body + instrs == bs[b].body;
      assert Added(bs, b, instrs) == bs;
      k' := k;
    } else {
      OneAdded(bs, next, k, b, instrs[0]);
      var bs1 := Added(bs, b, [instrs[0]]);
      k' := AllAdded(bs1, After(next, instrs[0]), Defined(k, next, instrs[0], Site(b, |bs[b].body|)), b, instrs[1..],
        next');
      assert bs[b].body + [instrs[0]] + instrs[1..] == bs[b].body + instrs;
      assert Added(bs1, b, instrs[1..]) == Added(bs, b, instrs);
    }
  }

  // ---------------------------------------------------------------- a new block

  /** A new block, with a phi that has no entries yet or none at all. */
  lemma NewBlockAdded(bs: seq<Block>, next: Reg, k: Cert, phi: bool, live: set<Reg>) returns (k': Cert)
    requires Certified(bs, next, k)
    ensures var b := Block(if phi then Phi(next, []) else NoPhi, [], Open);
            && Certified(bs + [b], if phi then next + 1 else next, k') && k'.live == k.live + [live]
            && Out(b, live) == if phi then live + {next} else live
  {
    hide BlockKnown, BlockSites, Known, Defines;
    var b := Block(if phi then Phi(next, []) else NoPhi, [], Open);
    var next' := if phi then next + 1 else next;
    var site := if phi then k.site[next := Site(|bs|, -1)] else k.site;
    k' := Cert(k.live + [live], k.preds + [[]], site);
    var bs' := bs + [b];
    NewBlockFacts(next, phi, live, |bs|, site);
    forall x | 0 <= x < |bs'|
      ensures BlockKnown(bs'[x], k'.live[x]) && BlockSites(bs'[x], x, k'.site, next')
    {
      if x < |bs| {
        assert bs'[x] == bs[x];
        SitesStay(bs[x], x, k.site, next, Site(|bs|, -1));
      }
    }
    forall x, t | 0 <= x < |bs'| && t in Targets(bs'[x].term)
      ensures t < |bs'| && EdgeKnown(bs', k'.live, x, t)
    {
      assert t in Targets(bs[x].term) && EdgeKnown(bs, k.live, x, t);
    }
    forall t | 0 <= t < |bs'|
      ensures PredsFit(bs', k'.preds, t)
    {
      if t < |bs| {
        assert PredsFit(bs, k.preds, t);
      }
      assert forall x: Label :: Edge(bs', x, t) <==> Edge(bs, x, t);
    }
  }

  lemma NewBlockFacts(next: Reg, phi: bool, live: set<Reg>, at: Label, site: map<Reg, Site>)
    requires phi ==> next in site && site[next] == Site(at, -1)
    ensures var b := Block(if phi then Phi(next, []) else NoPhi, [], Open);
            && BlockKnown(b, live) && BlockSites(b, at, site, if phi then next + 1 else next)
            && Out(b, live) == if phi then live + {next} else live
  {
  }

  // ---------------------------------------------------------------- a terminator

  /** Ends block b with `term`; a phi in block t gets an entry for b. */
  function Ended(bs: seq<Block>, b: Label, term: Term, t: Label, r: Reg): seq<Block>
    requires b < |bs| && t < |bs| && t != b
  {
    bs[b := bs[b].(term := term)]
      [t := bs[t].(phi := if bs[t].phi.Phi? then bs[t].phi.(incoming := bs[t].phi.incoming + [(b, r)]) else NoPhi)]
  }

  function PredsWith(preds: seq<seq<Label>>, b: Label, ts: set<Label>): seq<seq<Label>> {
    seq(|preds|, x requires 0 <= x < |preds| => if x in ts then preds[x] + [b] else preds[x])
  }

  predicate CanEnd(bs: seq<Block>, live: seq<set<Reg>>, b: Label, term: Term, t: Label, r: Reg) {
    && b < |bs| == |live| && t < |bs| && t != b && bs[b].term == Open && TermUses(term) <= Out(bs[b], live[b])
    && t in Targets(term) && b !in Targets(term) && (bs[t].phi.Phi? ==> r in Out(bs[b], live[b]))
    && forall x :: x in Targets(term) ==> x < |bs| && live[x] <= Out(bs[b], live[b]) && (x != t ==> bs[x].phi == NoPhi)
  }

  /** Only the body and the register of the phi matter for what a block knows and defines. */
  lemma SameKnowledge(b: Block, b': Block, live: set<Reg>)
    requires b'.body == b.body && PhiDefs(b'.phi) == PhiDefs(b.phi)
    ensures forall n :: 0 <= n <= |b.body| ==> Known(b', live, n) == Known(b, live, n)
    ensures Out(b', live) == Out(b, live) && forall i, r: Reg :: Defines(b', i, r) <==> Defines(b, i, r)
  {
    hide Defs, BodyDefs, PhiDefs;
  }

  lemma SameBlock(b: Block, b': Block, at: Label, live: set<Reg>, site: map<Reg, Site>, next: Reg)
    requires BlockKnown(b, live) && BlockSites(b, at, site, next)
    requires b'.body == b.body && PhiDefs(b'.phi) == PhiDefs(b.phi) && TermUses(b'.term) <= Out(b, live)
    ensures BlockKnown(b', live) && BlockSites(b', at, site, next) && Out(b', live) == Out(b, live)
  {
    hide Defs, BodyDefs, PhiDefs, Known, Defines, Out, Uses, TermUses;
    SameKnowledge(b, b', live);
  }

  lemma EndedBlocks(bs: seq<Block>, next: Reg, k: Cert, b: Label, term: Term, t: Label, r: Reg)
    requires Certified(bs, next, k) && CanEnd(bs, k.live, b, term, t, r)
    ensures var bs' := Ended(bs, b, term, t, r);
            forall x :: 0 <= x < |bs| ==>
              && BlockKnown(bs'[x], k.live[x]) && BlockSites(bs'[x], x, k.site, next)
                 && Out(bs'[x], k.live[x]) == Out(bs[x], k.live[x])
              && bs'[x].term == if x == b then term else bs[x].term
  {
    hide EdgeKnown, PredsFit, Defs, Uses, Out, BlockSites, Targets, TermUses;
    var bs' := Ended(bs, b, term, t, r);
    forall x | 0 <= x < |bs|
      ensures BlockKnown(bs'[x], k.live[x]) && BlockSites(bs'[x], x, k.site, next)
              && Out(bs'[x], k.live[x]) == Out(bs[x], k.live[x])
    {
      SameBlock(bs[x], bs'[x], x, k.live[x], k.site, next);
    }
  }

  lemma HandedMore(f: Phi, b: Label, r: Reg, from: Label, known: set<Reg>)
    requires f.Phi? && Handed(f, from, known) && (from == b ==> r in known)
    ensures Handed(f.(incoming := f.incoming + [(b, r)]), from, known)
  {
  }

  lemma HandedNone(f: Phi, preds: seq<Label>, b: Label, known: set<Reg>)
    requires f.Phi? && b !in preds && Labels(f.incoming) == preds
    ensures Handed(f, b, known)
  {
    forall j | 0 <= j < |f.incoming|
      ensures f.incoming[j].0 != b
    {
      assert Labels(f.incoming)[j] == f.incoming[j].0;
    }
  }

  lemma EndedEdges(bs: seq<Block>, next: Reg, k: Cert, b: Label, term: Term, t: Label, r: Reg)
    requires Certified(bs, next, k) && CanEnd(bs, k.live, b, term, t, r)
    ensures var bs' := Ended(bs, b, term, t, r);
            forall x, y {:trigger y in Targets(bs'[x].term)} :: 0 <= x < |bs| && y in Targets(bs'[x].term) ==>
              y < |bs| && EdgeKnown(bs', k.live, x, y)
  {
    hide BlockKnown, BlockSites, Known, Handed, Labels;
    var bs' := Ended(bs, b, term, t, r);
    EndedBlocks(bs, next, k, b, term, t, r);
    assert PredsFit(bs, k.preds, t) && b !in k.preds[t];
    forall x, y | 0 <= x < |bs| && y in Targets(bs'[x].term)
      ensures y < |bs| && EdgeKnown(bs', k.live, x, y)
    {
      if x == b {
        if y == t && bs[t].phi.Phi? {
          HandedNone(bs[t].phi, k.preds[t], b, Out(bs[b], k.live[b]));
          HandedMore(bs[t].phi, b, r, b, Out(bs[b], k.live[b]));
        } else {
          NoPhiHanded(b, Out(bs[b], k.live[b]));
        }
      } else {
        assert y in Targets(bs[x].term) && EdgeKnown(bs, k.live, x, y);
        if y == t && bs[t].phi.Phi? {
          HandedMore(bs[t].phi, b, r, x, Out(bs[x], k.live[x]));
        }
      }
    }
  }

  lemma NoPhiHanded(b: Label, known: set<Reg>)
    ensures Handed(NoPhi, b, known)
  {
  }

  lemma EndedPreds(bs: seq<Block>, next: Reg, k: Cert, b: Label, term: Term, t: Label, r: Reg, y: Label)
    requires Certified(bs, next, k) && CanEnd(bs, k.live, b, term, t, r) && y < |bs|
    ensures PredsFit(Ended(bs, b, term, t, r), PredsWith(k.preds, b, Targets(term)), y)
  {
    hide BlockKnown, BlockSites, EdgeKnown, Out;
    var bs', preds' := Ended(bs, b, term, t, r), PredsWith(k.preds, b, Targets(term));
    assert PredsFit(bs, k.preds, y) && b !in k.preds[y];
    assert forall x: Label :: Edge(bs', x, y) <==> Edge(bs, x, y) || (x == b && y in Targets(term));
    if y in Targets(term) {
      assert forall x: Label :: x in k.preds[y] + [b] <==> x in k.preds[y] || x == b;
    }
    if y == t && bs[y].phi.Phi? {
      assert Labels(bs[t].phi.incoming + [(b, r)]) == Labels(bs[t].phi.incoming) + [b];
    }
  }

  /** Ending a block keeps the certificate, up to the new edges. */
  lemma BlockEnded(bs: seq<Block>, next: Reg, k: Cert, b: Label, term: Term, t: Label, r: Reg) returns (k': Cert)
    requires Certified(bs, next, k) && CanEnd(bs, k.live, b, term, t, r)
    ensures Certified(Ended(bs, b, term, t, r), next, k') && k'.live == k.live
    ensures forall x :: 0 <= x < |bs| ==> Out(Ended(bs, b, term, t, r)[x], k.live[x]) == Out(bs[x], k.live[x])
  {
    hide BlockKnown, BlockSites, EdgeKnown, PredsFit, Out, Targets;
    EndedBlocks(bs, next, k, b, term, t, r);
    EndedEdges(bs, next, k, b, term, t, r);
    k' := k.(preds := PredsWith(k.preds, b, Targets(term)));
    forall y | 0 <= y < |bs|
      ensures PredsFit(Ended(bs, b, term, t, r), k'.preds, y)
    {
      EndedPreds(bs, next, k, b, term, t, r, y);
    }
  }
}
