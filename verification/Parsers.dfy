/** Parser combinators over a byte stream and a threaded context (aml/src/parser.rs, aml/src/opcode.rs:99-108). */
module Parsers {
  import opened Types
  import opened Interpreter

  /** `Stuck` stands for a parse that panics or never returns. */
  datatype ParseResult<C, R> =
    | Parsed(rest: Bytes, ctx: C, value: R)
    | Halted(rest: Bytes, ctx: C, why: Propagate)
    | Stuck

  type Parser<!C, !R> = (Bytes, C) -> ParseResult<C, R>

  /** What a mapping function makes of a result. */
  datatype Mapped<+A> = Keep(value: A) | Throw(why: Propagate)

  const WRONG_PARSER: Propagate := PErr(WrongParser)

  // ---- Primitive parsers ----

  function Id<C>(): Parser<C, ()> { (i, c) => Parsed(i, c, ()) }

  function Take<C>(): Parser<C, byte> {
    (i, c) => if i == [] then Halted(i, c, PErr(UnexpectedEndOfStream)) else Parsed(i[1..], c, i[0])
  }

  function Opcode<C>(op: byte): Parser<C, ()> {
    (i, c) =>
      if i == [] then Halted(i, c, PErr(UnexpectedEndOfStream))
      else if i[0] == op then Parsed(i[1..], c, ())
      else Halted(i, c, WRONG_PARSER)
  }

  function Consume<C>(condition: byte -> bool): Parser<C, byte> {
    (i, c) =>
      if i == [] then Halted(i, c, PErr(UnexpectedEndOfStream))
      else if condition(i[0]) then Parsed(i[1..], c, i[0])
      else Halted(i, c, PErr(UnexpectedByte(i[0])))
  }

  /** A length as the source stores it, in 32 bits. */
  function Len32(s: Bytes): u32 { |s| % 0x1_0000_0000 }

  function TakeN<C>(n: u32): Parser<C, Bytes> {
    (i, c) =>
      if Len32(i) < n then Halted(i, c, PErr(UnexpectedEndOfStream)) else Parsed(i[n..], c, i[..n])
  }

  // ---- Combinators ----

  function Or<C, R>(p1: Parser<C, R>, p2: Parser<C, R>): Parser<C, R> {
    (i, c) =>
      match p1(i, c)
      case Parsed(rest, c1, v) => Parsed(rest, c1, v)
      case Halted(_, c1, why) => if why == WRONG_PARSER then p2(i, c1) else Halted(i, c1, why)
      case Stuck => Stuck
  }

  /** `choice!`: the first alternative that is not the wrong parser decides; a failure gives the input back. */
  function Choice<C, R>(ps: seq<Parser<C, R>>): Parser<C, R>
    decreases |ps|
  {
    (i, c) =>
      if ps == [] then Halted(i, c, WRONG_PARSER)
      else match ps[0](i, c)
        case Parsed(rest, c1, v) => Parsed(rest, c1, v)
        case Halted(_, c1, why) => if why == WRONG_PARSER then Choice(ps[1..])(i, c1) else Halted(i, c1, why)
        case Stuck => Stuck
  }

  function MapWithContext<C, R, A>(p: Parser<C, R>, f: (R, C) -> (Mapped<A>, C)): Parser<C, A> {
    (i, c) =>
      match p(i, c)
      case Parsed(rest, c1, v) =>
        (match f(v, c1)
         case (Keep(a), c2) => Parsed(rest, c2, a)
         case (Throw(why), c2) => Halted(i, c2, why))
      case Halted(rest, c1, why) => Halted(rest, c1, why)
      case Stuck => Stuck
  }

  function Map<C, R, A>(p: Parser<C, R>, f: R -> Mapped<A>): Parser<C, A> {
    (i, c) =>
      match p(i, c)
      case Parsed(rest, c1, v) =>
        (match f(v)
         case Keep(a) => Parsed(rest, c1, a)
         case Throw(why) => Halted(i, c1, why))
      case Halted(rest, c1, why) => Halted(rest, c1, why)
      case Stuck => Stuck
  }

  function Then<C, R1, R2>(p1: Parser<C, R1>, p2: Parser<C, R2>): Parser<C, (R1, R2)> {
    (i, c) =>
      match p1(i, c)
      case Parsed(rest, c1, a) =>
        (match p2(rest, c1)
         case Parsed(last, c2, b) => Parsed(last, c2, (a, b))
         case Halted(last, c2, why) => Halted(last, c2, why)
         case Stuck => Stuck)
      case Halted(rest, c1, why) => Halted(rest, c1, why)
      case Stuck => Stuck
  }

  function Feed<C, R1, R2>(p: Parser<C, R1>, producer: R1 -> Parser<C, R2>): Parser<C, R2> {
    (i, c) =>
      match p(i, c)
      case Parsed(rest, c1, a) => producer(a)(rest, c1)
      case Halted(rest, c1, why) => Halted(rest, c1, why)
      case Stuck => Stuck
  }

  /** `extract`: also returns the bytes the parser consumed. */
  function Extract<C, R>(p: Parser<C, R>): Parser<C, (R, Bytes)> {
    (i, c) =>
      match p(i, c)
      case Parsed(rest, c1, v) => if |rest| > |i| then Stuck else Parsed(rest, c1, (v, i[..|i| - |rest|]))
      case Halted(rest, c1, why) => Halted(rest, c1, why)
      case Stuck => Stuck
  }

  /** `n` results in a row; a failure gives back the input of the repetition that failed. */
  function NOf<C, R>(p: Parser<C, R>, n: nat): Parser<C, seq<R>>
    decreases n
  {
    (i, c) =>
      if n == 0 then Parsed(i, c, [])
      else match p(i, c)
        case Parsed(rest, c1, v) =>
          (match NOf(p, n - 1)(rest, c1)
           case Parsed(last, c2, vs) => Parsed(last, c2, [v] + vs)
           case Halted(last, c2, why) => Halted(last, c2, why)
           case Stuck => Stuck)
        case Halted(_, c1, why) => Halted(i, c1, why)
        case Stuck => Stuck
  }

  /** How often a parser applies; `Stuck` once it applies without consuming. */
  function CountWhile<C, R>(p: Parser<C, R>, i: Bytes, c: C): ParseResult<C, nat>
    decreases |i|
  {
    match p(i, c)
    case Parsed(rest, c1, _) =>
      if |rest| >= |i| then Stuck
      else (match CountWhile(p, rest, c1)
            case Parsed(last, c2, n) => Parsed(last, c2, n + 1)
            case Halted(last, c2, why) => Halted(last, c2, why)
            case Stuck => Stuck)
    case Halted(_, c1, why) => if why == WRONG_PARSER then Parsed(i, c1, 0) else Halted(i, c1, why)
    case Stuck => Stuck
  }

  function TakeWhile<C, R>(p: Parser<C, R>): Parser<C, nat> { (i, c) => CountWhile(p, i, c) }

  /** `term_list`: objects are parsed until the stream is no longer than `endOffset`. */
  function Repeat<C, R>(p: Parser<C, R>, endOffset: u32, i: Bytes, c: C): ParseResult<C, ()>
    decreases |i|
  {
    if Len32(i) <= endOffset then Parsed(i, c, ())
    else match p(i, c)
      case Parsed(rest, c1, _) => if |rest| >= |i| then Stuck else Repeat(p, endOffset, rest, c1)
      case Halted(rest, c1, why) => Halted(rest, c1, why)
      case Stuck => Stuck
  }

  function TermList<C, R>(termObject: Parser<C, R>, endOffset: u32): Parser<C, ()> {
    (i, c) => Repeat(termObject, endOffset, i, c)
  }

  // ---- The loops, as the source runs them ----

  method RunNOf<C, R>(p: Parser<C, R>, n: nat, i: Bytes, c: C) returns (r: ParseResult<C, seq<R>>)
    ensures r == NOf(p, n)(i, c)
  {
    hide NOf;
    var input, ctx := i, c;
    var results: seq<R> := [];
    PrependNone(NOf(p, n)(i, c));
    for k := 0 to n
      invariant NOf(p, n)(i, c) == Prepend(results, NOf(p, n - k)(input, ctx))
    {
      OneMore(p, n - k - 1, input, ctx);
      match p(input, ctx) {
        case Stuck => return Stuck;
        case Halted(_, c1, why) => return Halted(input, c1, why);
        case Parsed(rest, c1, v) =>
          PrependTwice(results, [v], NOf(p, n - k - 1)(rest, c1));
          results := results + [v];
          input, ctx := rest, c1;
      }
    }
    OneMore(p, 0, input, ctx);
    assert results + [] == results;
    r := Parsed(input, ctx, results);
  }

  function Prepend<C, R>(vs: seq<R>, r: ParseResult<C, seq<R>>): ParseResult<C, seq<R>> {
    if r.Parsed? then r.(value := vs + r.value) else r
  }

  lemma OneMore<C, R>(p: Parser<C, R>, n: nat, i: Bytes, c: C)
    ensures NOf(p, n + 1)(i, c) ==
            match p(i, c)
            case Parsed(rest, c1, v) => Prepend([v], NOf(p, n)(rest, c1))
            case Halted(_, c1, why) => Halted(i, c1, why)
            case Stuck => Stuck
    ensures NOf(p, 0)(i, c) == Parsed(i, c, [])
  {
  }

  lemma PrependNone<C, R>(r: ParseResult<C, seq<R>>)
    ensures Prepend([], r) == r
  {
    if r.Parsed? { assert [] + r.value == r.value; }
  }

  lemma PrependTwice<C, R>(vs: seq<R>, ws: seq<R>, r: ParseResult<C, seq<R>>)
    ensures Prepend(vs + ws, r) == Prepend(vs, Prepend(ws, r))
  {
    if r.Parsed? { assert vs + ws + r.value == vs + (ws + r.value); }
  }

  // ---- What the primitives read ----

  /** Taking `n` bytes is taking a byte `n` times; only the place a failure is reported at differs. */
  lemma {:induction false} TakeNIsTakes<C>(n: u32, i: Bytes, c: C)
    requires |i| < 0x1_0000_0000
    ensures NOf(Take<C>(), n)(i, c) == (if TakeN<C>(n)(i, c).Parsed? then TakeN<C>(n)(i, c)
                                        else Halted([], c, PErr(UnexpectedEndOfStream)))
    ensures |i| < n ==> TakeN<C>(n)(i, c) == Halted(i, c, PErr(UnexpectedEndOfStream))
    decreases n
  {
    hide NOf;
    OneMore(Take<C>(), if n == 0 then 0 else n - 1, i, c);
    assert i[..0] == [] && i[0..] == i;
    if n > 0 && i != [] {
      TakeNIsTakes(n - 1, i[1..], c);
      if n <= |i| { assert [i[0]] + i[1..][..n - 1] == i[..n] && i[1..][n - 1..] == i[n..]; }
    }
  }

  /** Both tests of a byte take it or leave it; one names the byte it refused, the other that it is not the parser. */
  lemma TestsOfAByte<C>(op: byte, condition: byte -> bool, b: byte, rest: Bytes, c: C)
    ensures Take<C>()([b] + rest, c) == Parsed(rest, c, b)
    ensures Consume<C>(condition)([b] + rest, c) ==
            if condition(b) then Parsed(rest, c, b) else Halted([b] + rest, c, PErr(UnexpectedByte(b)))
    ensures Opcode<C>(op)([b] + rest, c) == if b == op then Parsed(rest, c, ()) else Halted([b] + rest, c, WRONG_PARSER)
    ensures Take<C>()([], c) == Halted([], c, PErr(UnexpectedEndOfStream))
    ensures Consume<C>(condition)([], c) == Halted([], c, PErr(UnexpectedEndOfStream))
    ensures Opcode<C>(op)([], c) == Halted([], c, PErr(UnexpectedEndOfStream))
  {
    assert ([b] + rest)[1..] == rest;
  }

  /** The parser applies `n` times in a row, consuming or not, and then no more. */
  predicate StopsAfter<C, R>(p: Parser<C, R>, n: nat, i: Bytes, c: C)
    decreases n
  {
    match p(i, c)
    case Parsed(rest, c1, _) => n > 0 && StopsAfter(p, n - 1, rest, c1)
    case Halted(_, _, _) => n == 0
    case Stuck => false
  }

  /** How the parser's failure after `n` applications ends `take_while`. */
  function Counted<C, R>(p: Parser<C, R>, n: nat, i: Bytes, c: C): ParseResult<C, nat>
    requires StopsAfter(p, n, i, c)
    decreases n
  {
    match p(i, c)
    case Parsed(rest, c1, _) => CountMore(1, Counted(p, n - 1, rest, c1))
    case Halted(_, c1, why) => if why == WRONG_PARSER then Parsed(i, c1, 0) else Halted(i, c1, why)
  }

  function CountMore<C>(k: nat, r: ParseResult<C, nat>): ParseResult<C, nat> {
    if r.Parsed? then r.(value := k + r.value) else r
  }

  lemma {:induction false} StopsOnce<C, R>(p: Parser<C, R>, m: nat, n: nat, i: Bytes, c: C)
    requires StopsAfter(p, m, i, c) && StopsAfter(p, n, i, c)
    ensures m == n
    decreases m
  {
    if m > 0 { StopsOnce(p, m - 1, n - 1, p(i, c).rest, p(i, c).ctx); }
  }

  /** If every application consumes, the repetition stops, as the recursive one says. */
  lemma {:induction false} ConsumingStops<C, R>(p: Parser<C, R>, i: Bytes, c: C) returns (n: nat)
    requires !CountWhile(p, i, c).Stuck?
    ensures StopsAfter(p, n, i, c) && Counted(p, n, i, c) == CountWhile(p, i, c)
    decreases |i|
  {
    n := 0;
    var r := p(i, c);
    if r.Parsed? {
      var m := ConsumingStops(p, r.rest, r.ctx);
      n := m + 1;
    }
  }

  /** Returns whenever the parser stops applying; where it never does, the source loops for ever. */
  method RunTakeWhile<C, R>(p: Parser<C, R>, i: Bytes, c: C) returns (r: ParseResult<C, nat>)
    requires exists n: nat :: StopsAfter(p, n, i, c)
    ensures exists n: nat :: StopsAfter(p, n, i, c) && r == Counted(p, n, i, c)
    ensures !CountWhile(p, i, c).Stuck? ==> r == TakeWhile(p)(i, c)
  {
    ghost var n: nat :| StopsAfter(p, n, i, c);
    if !CountWhile(p, i, c).Stuck? {
      ghost var k := ConsumingStops(p, i, c);
      StopsOnce(p, n, k, i, c);
    }
    var input, ctx, passed := i, c, 0;
    while true
      invariant passed <= n && StopsAfter(p, n - passed, input, ctx)
      invariant Counted(p, n, i, c) == CountMore(passed, Counted(p, n - passed, input, ctx))
      decreases n - passed
    {
      match p(input, ctx) {
        case Halted(_, c1, why) =>
          if why == WRONG_PARSER { return Parsed(input, c1, passed); }
          return Halted(input, c1, why);
        case Parsed(rest, c1, _) =>
          input, ctx, passed := rest, c1, passed + 1;
      }
    }
  }

  /** `n` objects are parsed, consuming or not, before the list ends or one fails. */
  predicate ListStopsAfter<C, R>(p: Parser<C, R>, endOffset: u32, n: nat, i: Bytes, c: C)
    decreases n
  {
    if Len32(i) <= endOffset then n == 0
    else match p(i, c)
      case Parsed(rest, c1, _) => n > 0 && ListStopsAfter(p, endOffset, n - 1, rest, c1)
      case Halted(_, _, _) => n == 0
      case Stuck => false
  }

  function ListEnd<C, R>(p: Parser<C, R>, endOffset: u32, n: nat, i: Bytes, c: C): ParseResult<C, ()>
    requires ListStopsAfter(p, endOffset, n, i, c)
    decreases n
  {
    if Len32(i) <= endOffset then Parsed(i, c, ())
    else match p(i, c)
      case Parsed(rest, c1, _) => ListEnd(p, endOffset, n - 1, rest, c1)
      case Halted(rest, c1, why) => Halted(rest, c1, why)
  }

  lemma {:induction false} ListStopsOnce<C, R>(p: Parser<C, R>, endOffset: u32, m: nat, n: nat, i: Bytes, c: C)
    requires ListStopsAfter(p, endOffset, m, i, c) && ListStopsAfter(p, endOffset, n, i, c)
    ensures m == n
    decreases m
  {
    if m > 0 { ListStopsOnce(p, endOffset, m - 1, n - 1, p(i, c).rest, p(i, c).ctx); }
  }

  lemma {:induction false} ConsumingListStops<C, R>(p: Parser<C, R>, endOffset: u32, i: Bytes, c: C) returns (n: nat)
    requires !Repeat(p, endOffset, i, c).Stuck?
    ensures ListStopsAfter(p, endOffset, n, i, c) && ListEnd(p, endOffset, n, i, c) == Repeat(p, endOffset, i, c)
    decreases |i|
  {
    n := 0;
    if Len32(i) > endOffset {
      var r := p(i, c);
      if r.Parsed? {
        var m := ConsumingListStops(p, endOffset, r.rest, r.ctx);
        n := m + 1;
      }
    }
  }

  method RunTermList<C, R>(p: Parser<C, R>, endOffset: u32, i: Bytes, c: C) returns (r: ParseResult<C, ()>)
    requires exists n: nat :: ListStopsAfter(p, endOffset, n, i, c)
    ensures exists n: nat :: ListStopsAfter(p, endOffset, n, i, c) && r == ListEnd(p, endOffset, n, i, c)
    ensures !Repeat(p, endOffset, i, c).Stuck? ==> r == TermList(p, endOffset)(i, c)
  {
    ghost var n: nat :| ListStopsAfter(p, endOffset, n, i, c);
    if !Repeat(p, endOffset, i, c).Stuck? {
      ghost var k := ConsumingListStops(p, endOffset, i, c);
      ListStopsOnce(p, endOffset, n, k, i, c);
    }
    ghost var left := n;
    var input, ctx := i, c;
    while Len32(input) > endOffset
      invariant ListStopsAfter(p, endOffset, left, input, ctx)
      invariant ListEnd(p, endOffset, n, i, c) == ListEnd(p, endOffset, left, input, ctx)
      decreases left
    {
      match p(input, ctx) {
        case Halted(rest, c1, why) => return Halted(rest, c1, why);
        case Parsed(rest, c1, _) =>
          left := left - 1;
          input, ctx := rest, c1;
      }
    }
    r := Parsed(input, ctx, ());
  }

  // ---- How the combinators relate ----

  /** A choice is the chain of alternatives it replaces, contexts and failures included. */
  lemma ChoiceIsOrChain<C, R>(p: Parser<C, R>, ps: seq<Parser<C, R>>, i: Bytes, c: C)
    ensures Choice([p] + ps)(i, c) == Or(p, Choice(ps))(i, c)
  {
    assert ([p] + ps)[1..] == ps;
  }

  /** Sequencing is feeding the first result to the second parser, and mapping is mapping that keeps the context. */
  lemma SequencingIsFeeding<C, R1, R2, A>(
    p1: Parser<C, R1>, p2: Parser<C, R2>, f: R1 -> Mapped<A>, i: Bytes, c: C)
    ensures Then(p1, p2)(i, c) == Feed(p1, a => Map(p2, b => Keep((a, b))))(i, c)
    ensures Map(p1, f)(i, c) == MapWithContext(p1, (a, c1) => (f(a), c1))(i, c)
  {
  }

  /** Feeding is associative, with no result as its unit. */
  lemma FeedingIsAssociative<C, R1, R2, R3>(
    p: Parser<C, R1>, f: R1 -> Parser<C, R2>, g: R2 -> Parser<C, R3>, i: Bytes, c: C)
    ensures Feed(Feed(p, f), g)(i, c) == Feed(p, a => Feed(f(a), g))(i, c)
    ensures Feed(Id<C>(), (_: ()) => p)(i, c) == p(i, c)
  {
  }

  /** Repeating `m + n` times is repeating `m` times and then `n` times, wherever either fails. */
  lemma {:induction false} RepetitionSplits<C, R>(p: Parser<C, R>, m: nat, n: nat, i: Bytes, c: C)
    ensures NOf(p, m + n)(i, c) ==
            match NOf(p, m)(i, c)
            case Parsed(rest, c1, vs) => Prepend(vs, NOf(p, n)(rest, c1))
            case Halted(rest, c1, why) => Halted(rest, c1, why)
            case Stuck => Stuck
    decreases m
  {
    hide NOf;
    if m == 0 {
      OneMore(p, 0, i, c);
      PrependNone(NOf(p, n)(i, c));
    } else {
      OneMore(p, m - 1, i, c);
      OneMore(p, m - 1 + n, i, c);
      match p(i, c)
      case Parsed(rest, c1, v) =>
        RepetitionSplits(p, m - 1, n, rest, c1);
        var r := NOf(p, m - 1)(rest, c1);
        if r.Parsed? { PrependTwice([v], r.value, NOf(p, n)(r.rest, r.ctx)); }
      case _ =>
    }
  }

  // ---- Suffixes ----

  predicate IsSuffix(s: Bytes, t: Bytes) { |s| <= |t| && s == t[|t| - |s|..] }

  lemma SuffixTrans(a: Bytes, b: Bytes, c: Bytes)
    requires IsSuffix(a, b) && IsSuffix(b, c)
    ensures IsSuffix(a, c)
  {
  }

  /** Whatever the outcome, the stream given back is the end of the stream taken. */
  ghost predicate Suffixing<C(!new), R>(p: Parser<C, R>) {
    forall i, c :: !p(i, c).Stuck? ==> IsSuffix(p(i, c).rest, i)
  }

  /** A success consumes something. */
  ghost predicate Consuming<C(!new), R>(p: Parser<C, R>) { forall i, c :: p(i, c).Parsed? ==> |p(i, c).rest| < |i| }

  ghost predicate Halting<C(!new), R>(p: Parser<C, R>) { forall i, c :: !p(i, c).Stuck? }

  lemma PrimitivesSuffixing<C(!new)>(op: byte, condition: byte -> bool, n: u32)
    ensures Suffixing(Id<C>()) && Suffixing(Take<C>()) && Suffixing(Opcode<C>(op)) && Suffixing(Consume<C>(condition))
    ensures Suffixing(TakeN<C>(n))
    ensures Consuming(Take<C>()) && Consuming(Opcode<C>(op)) && Halting(Opcode<C>(op))
  {
    hide Suffixing, Consuming, Halting;
    IdSuffixing<C>();
    TakeSuffixing<C>();
    OpcodeSuffixing<C>(op);
    ConsumeSuffixing<C>(condition);
    TakeNSuffixing<C>(n);
  }

  lemma IdSuffixing<C(!new)>()
    ensures Suffixing(Id<C>())
  {
  }

  lemma TakeSuffixing<C(!new)>()
    ensures Suffixing(Take<C>()) && Consuming(Take<C>())
  {
  }

  lemma OpcodeSuffixing<C(!new)>(op: byte)
    ensures Suffixing(Opcode<C>(op)) && Consuming(Opcode<C>(op)) && Halting(Opcode<C>(op))
  {
  }

  lemma ConsumeSuffixing<C(!new)>(condition: byte -> bool)
    ensures Suffixing(Consume<C>(condition))
  {
  }

  lemma TakeNSuffixing<C(!new)>(n: u32)
    ensures Suffixing(TakeN<C>(n))
  {
    forall i: Bytes, c: C ensures !TakeN<C>(n)(i, c).Stuck? ==> IsSuffix(TakeN<C>(n)(i, c).rest, i) {}
  }

  lemma OrSuffixing<C(!new), R>(p1: Parser<C, R>, p2: Parser<C, R>)
    requires Suffixing(p1) && Suffixing(p2)
    ensures Suffixing(Or(p1, p2))
  {
    forall i, c ensures !Or(p1, p2)(i, c).Stuck? ==> IsSuffix(Or(p1, p2)(i, c).rest, i) {
      var r := p1(i, c);
      if r.Halted? && r.why == WRONG_PARSER { assert !p2(i, r.ctx).Stuck? ==> IsSuffix(p2(i, r.ctx).rest, i); }
    }
  }

  lemma {:induction false} ChoiceSuffixing<C(!new), R>(ps: seq<Parser<C, R>>)
    requires forall k :: 0 <= k < |ps| ==> Suffixing(ps[k])
    ensures Suffixing(Choice(ps))
    decreases |ps|
  {
    if ps != [] { ChoiceSuffixing(ps[1..]); }
    forall i, c ensures !Choice(ps)(i, c).Stuck? ==> IsSuffix(Choice(ps)(i, c).rest, i) {
      if ps != [] {
        var r := ps[0](i, c);
        assert Suffixing(ps[0]);
        if r.Halted? && r.why == WRONG_PARSER { assert Choice(ps)(i, c) == Choice(ps[1..])(i, r.ctx); }
      }
    }
  }

  lemma MapWithContextSuffixing<C(!new), R, A>(p: Parser<C, R>, f: (R, C) -> (Mapped<A>, C))
    requires Suffixing(p)
    ensures Suffixing(MapWithContext(p, f))
  {
    forall i, c ensures !MapWithContext(p, f)(i, c).Stuck? ==> IsSuffix(MapWithContext(p, f)(i, c).rest, i) {
      assert p(i, c).Stuck? || IsSuffix(p(i, c).rest, i);
    }
  }

  lemma MapSuffixing<C(!new), R, A>(p: Parser<C, R>, f: R -> Mapped<A>)
    requires Suffixing(p)
    ensures Suffixing(Map(p, f))
  {
    forall i, c ensures !Map(p, f)(i, c).Stuck? ==> IsSuffix(Map(p, f)(i, c).rest, i) {
      assert p(i, c).Stuck? || IsSuffix(p(i, c).rest, i);
    }
  }

  lemma ThenSuffixing<C(!new), R1, R2>(p1: Parser<C, R1>, p2: Parser<C, R2>)
    requires Suffixing(p1) && Suffixing(p2)
    ensures Suffixing(Then(p1, p2))
  {
    forall i, c ensures !Then(p1, p2)(i, c).Stuck? ==> IsSuffix(Then(p1, p2)(i, c).rest, i) {
      var r := p1(i, c);
      if r.Parsed? && !p2(r.rest, r.ctx).Stuck? { SuffixTrans(p2(r.rest, r.ctx).rest, r.rest, i); }
    }
  }

  lemma FeedSuffixing<C(!new), R1(!new), R2>(p: Parser<C, R1>, producer: R1 -> Parser<C, R2>)
    requires Suffixing(p) && forall a :: Suffixing(producer(a))
    ensures Suffixing(Feed(p, producer))
  {
    forall i, c ensures !Feed(p, producer)(i, c).Stuck? ==> IsSuffix(Feed(p, producer)(i, c).rest, i) {
      var r := p(i, c);
      if r.Parsed? {
        assert Suffixing(producer(r.value));
        var s := producer(r.value)(r.rest, r.ctx);
        if !s.Stuck? { SuffixTrans(s.rest, r.rest, i); }
      }
    }
  }

  /** `extract` of a suffixing parser never fails itself, and its bytes and the rest are the input again. */
  lemma ExtractSplits<C(!new), R>(p: Parser<C, R>)
    requires Suffixing(p)
    ensures Suffixing(Extract(p))
    ensures forall i, c :: Extract(p)(i, c).Parsed? <==> p(i, c).Parsed?
    ensures forall i, c :: Extract(p)(i, c).Parsed? ==>
              var r := Extract(p)(i, c); r.value.0 == p(i, c).value && r.value.1 + r.rest == i
  {
    forall i, c
      ensures !Extract(p)(i, c).Stuck? ==> IsSuffix(Extract(p)(i, c).rest, i)
      ensures Extract(p)(i, c).Parsed? <==> p(i, c).Parsed?
      ensures Extract(p)(i, c).Parsed? ==>
                var r := Extract(p)(i, c); r.value.0 == p(i, c).value && r.value.1 + r.rest == i
    {
      assert p(i, c).Stuck? || IsSuffix(p(i, c).rest, i);
    }
  }

  lemma {:induction false} NOfSuffixing<C(!new), R>(p: Parser<C, R>, n: nat)
    requires Suffixing(p)
    ensures Suffixing(NOf(p, n))
    decreases n
  {
    if n > 0 { NOfSuffixing(p, n - 1); }
    forall i, c ensures !NOf(p, n)(i, c).Stuck? ==> IsSuffix(NOf(p, n)(i, c).rest, i) {
      if n > 0 {
        var r := p(i, c);
        if r.Parsed? {
          var s := NOf(p, n - 1)(r.rest, r.ctx);
          if !s.Stuck? { SuffixTrans(s.rest, r.rest, i); }
        }
      }
    }
  }

  lemma {:induction false} CountWhileSuffix<C(!new), R>(p: Parser<C, R>, i: Bytes, c: C)
    requires Suffixing(p)
    ensures !CountWhile(p, i, c).Stuck? ==> IsSuffix(CountWhile(p, i, c).rest, i)
    ensures Halting(p) && Consuming(p) ==> !CountWhile(p, i, c).Stuck?
    decreases |i|
  {
    var r := p(i, c);
    if r.Parsed? && |r.rest| < |i| {
      CountWhileSuffix(p, r.rest, r.ctx);
      var s := CountWhile(p, r.rest, r.ctx);
      if !s.Stuck? { SuffixTrans(s.rest, r.rest, i); }
    }
  }

  /** The loop over a parser that consumes comes to an end, at a suffix of its input. */
  lemma TakeWhileSuffixing<C(!new), R>(p: Parser<C, R>)
    requires Suffixing(p)
    ensures Suffixing(TakeWhile(p))
    ensures Halting(p) && Consuming(p) ==> Halting(TakeWhile(p))
  {
    forall i, c
      ensures !TakeWhile(p)(i, c).Stuck? ==> IsSuffix(TakeWhile(p)(i, c).rest, i)
      ensures Halting(p) && Consuming(p) ==> !TakeWhile(p)(i, c).Stuck?
    {
      CountWhileSuffix(p, i, c);
    }
  }

  lemma {:induction false} RepeatSuffix<C(!new), R>(p: Parser<C, R>, endOffset: u32, i: Bytes, c: C)
    requires Suffixing(p)
    ensures var r := Repeat(p, endOffset, i, c);
            && (!r.Stuck? ==> IsSuffix(r.rest, i))
            && (r.Parsed? && |i| < 0x1_0000_0000 ==> |r.rest| <= endOffset)
            && (Halting(p) && Consuming(p) ==> !r.Stuck?)
    decreases |i|
  {
    var r := p(i, c);
    if Len32(i) > endOffset && r.Parsed? && |r.rest| < |i| {
      RepeatSuffix(p, endOffset, r.rest, r.ctx);
      var s := Repeat(p, endOffset, r.rest, r.ctx);
      if !s.Stuck? { SuffixTrans(s.rest, r.rest, i); }
    }
  }

  /** A term list ends at a suffix no longer than the end offset, and always ends if its objects consume. */
  lemma TermListStops<C(!new), R>(p: Parser<C, R>, endOffset: u32, i: Bytes, c: C)
    requires Suffixing(p) && |i| < 0x1_0000_0000
    ensures var r := TermList(p, endOffset)(i, c);
            && (!r.Stuck? ==> IsSuffix(r.rest, i))
            && (r.Parsed? ==> |r.rest| <= endOffset)
            && (Halting(p) && Consuming(p) ==> !r.Stuck?)
  {
    RepeatSuffix(p, endOffset, i, c);
  }
}
