// The BrainF language itself: one command at a time, on a machine with a wrapping address space.
module BrainFLanguage {

  /** Number of addresses; pointers wrap around. */
  const WORD: int := 0x1_0000_0000_0000_0000

  datatype Event = Byte(b: int) | Message

  /** Memory, what is left to read, what has been written, and the addresses that have been given back. */
  datatype World = World(mem: map<int, int>, input: seq<int>, out: seq<Event>, freed: seq<int>)
  {
    function Cell(a: int): (b: int)
      ensures 0 <= b < 256
    {
      if a in mem then mem[a] % 256 else 0
    }

    function Set(a: int, b: int): World {
      this.(mem := mem[a := b % 256])
    }

    /** getchar: the next byte, or -1 at the end. */
    function Next(): int {
      if input == [] then -1 else input[0]
    }

    function Skip(): World {
      if input == [] then this else this.(input := input[1..])
    }

    /** putchar converts its argument to an unsigned character. */
    function Put(v: int): World {
      this.(out := out + [Byte(v % 256)])
    }
  }

  datatype State = State(pc: nat, head: int, world: World)

  // ---------------------------------------------------------------- brackets

  /** The first unmatched ']' at or after j, when d loops opened since are still open; |p| if none. */
  function ScanClose(p: string, j: nat, d: nat): (q: nat)
    requires j <= |p|
    ensures j <= q <= |p| && (q < |p| ==> p[q] == ']')
    decreases |p| - j
  {
    if j == |p| then |p|
    else if p[j] == '[' then ScanClose(p, j + 1, d + 1)
    else if p[j] == ']' then if d == 0 then j else ScanClose(p, j + 1, d - 1)
    else ScanClose(p, j + 1, d)
  }

  /** The last unmatched '[' before j, when d loops closed since are still unmatched; |p| if none. */
  function ScanOpen(p: string, j: nat, d: nat): (o: nat)
    requires j <= |p|
    ensures (o < j && p[o] == '[') || o == |p|
    decreases j
  {
    if j == 0 then |p|
    else if p[j - 1] == ']' then ScanOpen(p, j - 1, d + 1)
    else if p[j - 1] == '[' then if d == 0 then j - 1 else ScanOpen(p, j - 1, d - 1)
    else ScanOpen(p, j - 1, d)
  }

  /** Loops opened and not closed in the first i characters. */
  function Depth(p: string, i: nat): int
    requires i <= |p|
  {
    if i == 0 then 0
    else Depth(p, i - 1) + (if p[i - 1] == '[' then 1 else if p[i - 1] == ']' then -1 else 0)
  }

  predicate Balanced(p: string) {
    Depth(p, |p|) == 0 && forall i :: 0 <= i <= |p| ==> Depth(p, i) >= 0
  }

  /** Between a and b every bracket is matched, so a search for a mate passes over it. */
  ghost predicate Skips(p: string, a: nat, b: nat) {
    && a <= b <= |p|
    && (forall d: nat :: ScanClose(p, a, d) == ScanClose(p, b, d))
    && (forall d: nat :: ScanOpen(p, b, d) == ScanOpen(p, a, d))
  }

  lemma SkipsPlain(p: string, a: nat, b: nat)
    requires Skips(p, a, b) && b < |p| && p[b] != '[' && p[b] != ']'
    ensures Skips(p, a, b + 1)
  {
  }

  /** A loop whose inside is matched is itself matched, and its brackets are mates. */
  lemma SkipsLoop(p: string, a: nat, o: nat, q: nat)
    requires Skips(p, a, o) && o < |p| && p[o] == '[' && Skips(p, o + 1, q) && q < |p| && p[q] == ']'
    ensures Skips(p, a, q + 1)
    ensures ScanClose(p, o + 1, 0) == q && ScanOpen(p, q, 0) == o
  {
    assert ScanClose(p, q, 0) == q && ScanOpen(p, o + 1, 0) == o;
    forall d: nat
      ensures ScanClose(p, a, d) == ScanClose(p, q + 1, d)
      ensures ScanOpen(p, q + 1, d) == ScanOpen(p, a, d)
    {
      assert ScanClose(p, o, d) == ScanClose(p, o + 1, d + 1);
      assert ScanClose(p, q, d + 1) == ScanClose(p, q + 1, d);
      assert ScanOpen(p, q + 1, d) == ScanOpen(p, q, d + 1);
      assert ScanOpen(p, o + 1, d + 1) == ScanOpen(p, o, d);
    }
  }

  // ---------------------------------------------------------------- running

  function Step(p: string, s: State): (s': State)
    requires s.pc < |p|
    ensures s'.pc <= |p|
  {
    var w, h := s.world, s.head;
    match p[s.pc]
    case '+' => State(s.pc + 1, h, w.Set(h, w.Cell(h) + 1))
    case '-' => State(s.pc + 1, h, w.Set(h, w.Cell(h) - 1))
    case '>' => State(s.pc + 1, (h + 1) % WORD, w)
    case '<' => State(s.pc + 1, (h - 1) % WORD, w)
    case '.' => State(s.pc + 1, h, w.Put(w.Cell(h)))
    case ',' => State(s.pc + 1, h, w.Skip().Set(h, w.Next()))
    case '[' =>
      var q := ScanClose(p, s.pc + 1, 0);
      State(if w.Cell(h) != 0 then s.pc + 1 else if q < |p| then q + 1 else |p|, h, w)
    case ']' => State(ScanOpen(p, s.pc, 0), h, w)
    case _ => State(s.pc + 1, h, w)
  }

  function Run(p: string, s: State, n: nat): (s': State)
    requires s.pc <= |p|
    ensures s'.pc <= |p|
    decreases n
  {
    if n == 0 || s.pc == |p| then s else Run(p, Step(p, s), n - 1)
  }

  lemma {:induction false} RunThen(p: string, s: State, a: nat, b: nat)
    requires s.pc <= |p|
    ensures Run(p, s, a + b) == Run(p, Run(p, s, a), b)
    decreases a
  {
    if a != 0 && s.pc < |p| {
      RunThen(p, Step(p, s), a - 1, b);
    } else if a != 0 {
      RunHalted(p, s, a + b);
      RunHalted(p, s, b);
    }
  }

  lemma RunHalted(p: string, s: State, n: nat)
    requires s.pc == |p|
    ensures Run(p, s, n) == s
  {
  }

  // ---------------------------------------------------------------- stretches of one kind

  predicate Command(c: char) {
    c in "+-<>.,[]"
  }

  /** Only `up`, `down` and comments from a up to b. */
  predicate OnlyIn(p: string, a: nat, b: nat, up: char, down: char) {
    a <= b <= |p| && forall i :: a <= i < b ==> p[i] == up || p[i] == down || !Command(p[i])
  }

  function Delta(p: string, a: nat, b: nat, up: char, down: char): int
    requires a <= b <= |p|
    decreases b - a
  {
    if a == b then 0
    else Delta(p, a, b - 1, up, down) + (if p[b - 1] == up then 1 else if p[b - 1] == down then -1 else 0)
  }

  predicate Comments(p: string, a: nat, b: nat) {
    a <= b <= |p| && forall i :: a <= i < b ==> !Command(p[i])
  }

  lemma {:induction false} RunComments(p: string, s: State, b: nat)
    requires Comments(p, s.pc, b)
    ensures Run(p, s, b - s.pc) == s.(pc := b)
    decreases b - s.pc
  {
    if s.pc < b {
      RunComments(p, s.(pc := s.pc + 1), b);
    }
  }

  lemma RunOneMore(p: string, s: State, b: nat, r: State)
    requires s.pc < b <= |p| && Run(p, s, b - 1 - s.pc) == r && r.pc == b - 1
    ensures Run(p, s, b - s.pc) == Step(p, r)
  {
    RunThen(p, s, b - 1 - s.pc, 1);
    assert Run(p, r, 1) == Run(p, Step(p, r), 0);
  }

  /** Where a run of moves that comes before must have ended: at a command that is not a move, or at the
      end of the program. */
  predicate RunEnds(p: string, k: nat) {
    k <= |p| && (k < |p| ==> Command(p[k]) && p[k] != '>' && p[k] != '<')
  }

  /** From s, comments up to c and then a stretch of commands `up` and `down` up to b. */
  predicate Stretch(p: string, a: nat, c: nat, b: nat, up: char, down: char) {
    && Comments(p, a, c) && c < b && OnlyIn(p, c, b, up, down) && (p[c] == up || p[c] == down)
  }

  /** A stretch of + and - adds its total to the cell. */
  lemma {:induction false} RunChanges(p: string, s: State, c: nat, b: nat)
    requires Stretch(p, s.pc, c, b, '+', '-')
    ensures Run(p, s, b - s.pc) ==
            State(b, s.head, s.world.Set(s.head, s.world.Cell(s.head) + Delta(p, c, b, '+', '-')))
    decreases b
  {
    if b == c + 1 {
      RunComments(p, s, c);
      RunOneMore(p, s, b, s.(pc := c));
      assert Delta(p, c, c, '+', '-') == 0;
    } else {
      RunChanges(p, s, c, b - 1);
      var v := s.world.Cell(s.head) + Delta(p, c, b - 1, '+', '-');
      var r := State(b - 1, s.head, s.world.Set(s.head, v));
      RunOneMore(p, s, b, r);
      assert r.world.Cell(s.head) == v % 256;
      SetAgain(s.world, s.head, v, 1);
      SetAgain(s.world, s.head, v, -1);
    }
  }

  lemma SetAgain(w: World, h: int, v: int, d: int)
    ensures w.Set(h, v).Set(h, v % 256 + d) == w.Set(h, v + d)
  {
    assert w.mem[h := v % 256][h := (v % 256 + d) % 256] == w.mem[h := (v + d) % 256];
  }

  /** A stretch of < and > moves the head by its total. */
  lemma {:induction false} RunMoves(p: string, s: State, c: nat, b: nat)
    requires Stretch(p, s.pc, c, b, '>', '<')
    ensures Run(p, s, b - s.pc) == State(b, (s.head + Delta(p, c, b, '>', '<')) % WORD, s.world)
    decreases b
  {
    if b == c + 1 {
      RunComments(p, s, c);
      RunOneMore(p, s, b, s.(pc := c));
      assert Delta(p, c, c, '>', '<') == 0;
    } else {
      RunMoves(p, s, c, b - 1);
      var v := s.head + Delta(p, c, b - 1, '>', '<');
      RunOneMore(p, s, b, State(b - 1, v % WORD, s.world));
      WrapAgain(v, 1);
      WrapAgain(v, -1);
    }
  }

  lemma WrapAgain(v: int, d: int)
    ensures (v % WORD + d) % WORD == (v + d) % WORD
  {
  }

  /** A single command after comments. */
  lemma RunCommand(p: string, s: State, c: nat)
    requires Comments(p, s.pc, c) && c < |p|
    ensures Run(p, s, c + 1 - s.pc) == Step(p, s.(pc := c))
  {
    RunComments(p, s, c);
    RunOneMore(p, s, c + 1, s.(pc := c));
  }

  /** The end of the program, after comments. */
  lemma RunOut(p: string, s: State)
    requires Comments(p, s.pc, |p|)
    ensures Run(p, s, |p| - s.pc) == s.(pc := |p|)
  {
    RunComments(p, s, |p|);
  }

  lemma {:induction false} DeltaBound(p: string, a: nat, b: nat, up: char, down: char)
    requires a <= b <= |p|
    ensures -(b - a) <= Delta(p, a, b, up, down) <= b - a
    decreases b - a
  {
    if a < b {
      DeltaBound(p, a, b - 1, up, down);
    }
  }
}
