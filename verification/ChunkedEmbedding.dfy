/**
  The chunked-embedding rescue: bisect a refused text until every piece is embedded.

  The provider is arbitrary: its reply may depend on the segment and on how many calls came
  before. `Transcript` says what a run may look like, `EmbedInChunks` is the source's loop
  over an explicit stack, and the lemmas hold of every transcript.
 */
module ChunkedEmbedding {
  import opened Wrappers
  import opened Bytes
  import opened Utf8

  const MIN_PIECE: nat := 2048
  const MIN_CAP_CHARS: nat := 2 * MIN_PIECE - 1

  type Vector = seq<real>
  datatype Reply = Embedded(vector: Vector) | Refused(refusal: string) | Failure(error: string)
  type Provider = (nat, seq<Byte>) -> Reply

  datatype Call = Call(segment: seq<Byte>, reply: Reply)
  datatype End = Complete(vectors: seq<Vector>) | InputRefused(refusal: string) | Failed(error: string)

  // ---- splitting ----------------------------------------------------------------------

  /** The last character boundary at or before `k`. */
  function CutAt(s: seq<Byte>, k: nat): (c: nat)
    requires k <= |s|
    ensures c <= k
  {
    if k > 0 && !Boundary(s, k) then CutAt(s, k - 1) else k
  }

  lemma {:induction false} CutIsLastBoundary(s: seq<Byte>, k: nat)
    requires k <= |s|
    ensures Boundary(s, CutAt(s, k))
    ensures forall i :: CutAt(s, k) < i <= k ==> !Boundary(s, i)
  {
    if k > 0 && !Boundary(s, k) {
      CutIsLastBoundary(s, k - 1);
    }
  }

  /** Halves at a character boundary, if both keep at least 2048 bytes. */
  function Split(s: seq<Byte>): (halves: Option<(seq<Byte>, seq<Byte>)>)
    ensures halves.Some? ==> MIN_PIECE <= |halves.value.0| <= |halves.value.1|
    ensures halves.Some? ==> halves.value.0 + halves.value.1 == s
  {
    var cut := CutAt(s, |s| / 2);
    if cut < MIN_PIECE then None else Some((s[..cut], s[cut..]))
  }

  method SplitSegment(s: seq<Byte>) returns (halves: Option<(seq<Byte>, seq<Byte>)>)
    ensures halves == Split(s)
  {
    var cut: nat := |s| / 2;
    while cut > 0 && !Boundary(s, cut)
      invariant cut <= |s| / 2
      invariant CutAt(s, |s| / 2) == CutAt(s, cut)
    {
      cut := cut - 1;
    }
    if cut < MIN_PIECE {
      return None;
    }
    return Some((s[..cut], s[cut..]));
  }

  /** `c` is the last character boundary in the first half. */
  predicate Middle(s: seq<Byte>, c: nat) {
    c <= |s| / 2 && Boundary(s, c) && forall i :: c < i <= |s| / 2 ==> !Boundary(s, i)
  }

  /** There is one such place; the cut is there, and there is none exactly when that leaves less than 2048 bytes. */
  lemma {:induction false} SplitsInTheMiddle(s: seq<Byte>)
    ensures exists c: nat :: Middle(s, c)
    ensures forall c: nat :: Middle(s, c) ==> Split(s) == if c < 2048 then None else Some((s[..c], s[c..]))
  {
    CutIsLastBoundary(s, |s| / 2);
    assert Middle(s, CutAt(s, |s| / 2));
  }

  lemma {:induction false} SplitKeepsText(s: seq<Byte>)
    requires Split(s).Some?
    ensures Text(s) ==> Text(Split(s).value.0) && Text(Split(s).value.1)
    ensures Ascii(s) ==> Ascii(Split(s).value.0) && Ascii(Split(s).value.1)
  {
    CutIsLastBoundary(s, |s| / 2);
    if Text(s) {
      TextSplits(s, CutAt(s, |s| / 2));
    }
  }

  /** `segment` comes from `whole` by splitting, any number of times. */
  predicate PieceOf(whole: seq<Byte>, segment: seq<Byte>)
    decreases |whole|
  {
    || segment == whole
    || (Split(whole).Some? && (PieceOf(Split(whole).value.0, segment) || PieceOf(Split(whole).value.1, segment)))
  }

  lemma {:induction false} HalvesArePieces(whole: seq<Byte>, segment: seq<Byte>)
    requires PieceOf(whole, segment) && Split(segment).Some?
    ensures PieceOf(whole, Split(segment).value.0) && PieceOf(whole, Split(segment).value.1)
    decreases |whole|
  {
    if segment != whole {
      if PieceOf(Split(whole).value.0, segment) {
        HalvesArePieces(Split(whole).value.0, segment);
      } else {
        HalvesArePieces(Split(whole).value.1, segment);
      }
    }
  }

  ghost function Pieces(text: seq<Byte>): iset<seq<Byte>> {
    iset segment | PieceOf(text, segment)
  }

  ghost predicate ClosedUnderSplit(pieces: iset<seq<Byte>>) {
    forall s :: s in pieces && Split(s).Some? ==> Split(s).value.0 in pieces && Split(s).value.1 in pieces
  }

  lemma {:induction false} PiecesAreClosed(text: seq<Byte>)
    ensures text in Pieces(text) && ClosedUnderSplit(Pieces(text))
  {
    forall s | s in Pieces(text) && Split(s).Some?
      ensures Split(s).value.0 in Pieces(text) && Split(s).value.1 in Pieces(text)
    {
      HalvesArePieces(text, s);
    }
  }

  /** A piece is the whole or at least 2048 bytes, and consists of whole characters. */
  lemma {:induction false} PieceShape(whole: seq<Byte>, segment: seq<Byte>)
    requires PieceOf(whole, segment)
    ensures segment == whole || |segment| >= MIN_PIECE
    ensures Text(whole) ==> Text(segment)
    ensures Ascii(whole) ==> Ascii(segment)
    decreases |whole|
  {
    if segment != whole {
      SplitKeepsText(whole);
      if PieceOf(Split(whole).value.0, segment) {
        PieceShape(Split(whole).value.0, segment);
      } else {
        PieceShape(Split(whole).value.1, segment);
      }
    }
  }

  // ---- what a run may look like -------------------------------------------------------

  /** The text of the segments the provider embedded, in call order. */
  function Covered(calls: seq<Call>): seq<Byte> {
    if calls == [] then []
    else
      var last := calls[|calls| - 1];
      Covered(calls[..|calls| - 1]) + (if last.reply.Embedded? then last.segment else [])
  }

  /** Their vectors, in the same order. */
  function Vectors(calls: seq<Call>): seq<Vector> {
    if calls == [] then []
    else
      var last := calls[|calls| - 1];
      Vectors(calls[..|calls| - 1]) + (if last.reply.Embedded? then [last.reply.vector] else [])
  }

  /** A reply after which the rescue goes on. */
  predicate GoesOn(call: Call) {
    call.reply.Embedded? || (call.reply.Refused? && Split(call.segment).Some?)
  }

  /** The provider's own replies on pieces of the text, none of which stopped the run. */
  ghost predicate Progress(provider: Provider, pieces: iset<seq<Byte>>, calls: seq<Call>) {
    forall i :: 0 <= i < |calls| ==> Asked(provider, pieces, i, calls[i]) && GoesOn(calls[i])
  }

  ghost predicate Asked(provider: Provider, pieces: iset<seq<Byte>>, i: nat, call: Call) {
    call.reply == provider(i, call.segment) && call.segment in pieces
  }

  /** The most calls a segment of this many bytes can take: twice its pieces, less one. */
  function MostCalls(bytes: nat): (most: nat)
    ensures most >= 1
  {
    if bytes < MIN_PIECE then 1 else 2 * (bytes / MIN_PIECE) - 1
  }

  /** How many calls a run may make; without a refusal in hand the first one sends the text. */
  predicate Economical(text: seq<Byte>, initial: Option<string>, calls: seq<Call>) {
    && |calls| <= MostCalls(|text|) - (if initial.Some? then 1 else 0)
    && (initial.None? ==> calls != [] && calls[0].segment == text)
  }

  /**
    A finished run. Complete coverage in text order, one vector each; or the refusal of an
    unsplittable piece; or the first failure that is not a refusal. Never a part of the text.
   */
  ghost predicate Transcript(provider: Provider, text: seq<Byte>, initial: Option<string>, calls: seq<Call>, end: End) {
    match end
    case Complete(vectors) =>
      && Economical(text, initial, calls)
      && Progress(provider, Pieces(text), calls)
      && Covered(calls) == text && Vectors(calls) == vectors
    case InputRefused(refusal) =>
      if calls == [] then initial == Some(refusal) && Split(text).None?
      else
        && Economical(text, initial, calls)
        && Stopped(provider, Pieces(text), calls) && calls[|calls| - 1].reply == Refused(refusal)
    case Failed(error) =>
      && calls != [] && Economical(text, initial, calls)
      && Stopped(provider, Pieces(text), calls) && calls[|calls| - 1].reply == Failure(error)
  }

  /** Progress up to a last call that stopped the run. */
  ghost predicate Stopped(provider: Provider, pieces: iset<seq<Byte>>, calls: seq<Call>)
    requires calls != []
  {
    var last := |calls| - 1;
    && Progress(provider, pieces, calls[..last])
    && Asked(provider, pieces, last, calls[last])
    && !GoesOn(calls[last])
  }

  // ---- the loop -----------------------------------------------------------------------

  /** The text still pending, read from the top of the stack down. */
  function Pending(stack: seq<seq<Byte>>): seq<Byte> {
    if stack == [] then [] else stack[|stack| - 1] + Pending(stack[..|stack| - 1])
  }

  function MostCallsOfAll(stack: seq<seq<Byte>>): nat {
    if stack == [] then 0 else MostCallsOfAll(stack[..|stack| - 1]) + MostCalls(|stack[|stack| - 1]|)
  }

  lemma {:induction false} Push(stack: seq<seq<Byte>>, segment: seq<Byte>)
    ensures Pending(stack + [segment]) == segment + Pending(stack)
    ensures MostCallsOfAll(stack + [segment]) == MostCallsOfAll(stack) + MostCalls(|segment|)
  {
    assert (stack + [segment])[..|stack|] == stack;
  }

  lemma {:induction false} HalvesCost(segment: seq<Byte>)
    requires Split(segment).Some?
    ensures MostCalls(|Split(segment).value.0|) + MostCalls(|Split(segment).value.1|) < MostCalls(|segment|)
  {
    assert |segment| == |Split(segment).value.0| + |Split(segment).value.1|;
  }

  /** The left half goes on top, so the text order is kept. */
  lemma {:induction false} PushHalves(stack: seq<seq<Byte>>, segment: seq<Byte>)
    requires Split(segment).Some?
    ensures var pushed := stack + [Split(segment).value.1, Split(segment).value.0];
            && Pending(pushed) == segment + Pending(stack)
            && MostCallsOfAll(pushed) < MostCallsOfAll(stack) + MostCalls(|segment|)
  {
    var left, right := Split(segment).value.0, Split(segment).value.1;
    Push(stack, right);
    Push(stack + [right], left);
    assert stack + [right, left] == (stack + [right]) + [left];
    assert left + (right + Pending(stack)) == (left + right) + Pending(stack);
    HalvesCost(segment);
  }

  lemma {:induction false} Record(calls: seq<Call>, call: Call)
    ensures Covered(calls + [call]) == Covered(calls) + if call.reply.Embedded? then call.segment else []
    ensures Vectors(calls + [call]) == Vectors(calls) + if call.reply.Embedded? then [call.reply.vector] else []
  {
    assert (calls + [call])[..|calls|] == calls;
  }

  /** What the loop keeps, besides the order: honest calls and pending segments that are pieces. */
  ghost predicate Underway(provider: Provider, pieces: iset<seq<Byte>>, calls: seq<Call>, pending: seq<seq<Byte>>) {
    && ClosedUnderSplit(pieces)
    && Progress(provider, pieces, calls)
    && (forall i :: 0 <= i < |pending| ==> pending[i] in pieces)
  }

  /** The covered text and the pending text are the text. */
  ghost predicate Accounted(text: seq<Byte>, calls: seq<Call>, pending: seq<seq<Byte>>) {
    Covered(calls) + Pending(pending) == text
  }

  function Top(stack: seq<seq<Byte>>): seq<Byte>
    requires stack != []
  {
    stack[|stack| - 1]
  }

  function Below(stack: seq<seq<Byte>>): seq<seq<Byte>>
    requires stack != []
  {
    stack[..|stack| - 1]
  }

  lemma {:induction false} TurnUnderway(provider: Provider, pieces: iset<seq<Byte>>, calls: seq<Call>, pending: seq<seq<Byte>>, call: Call)
    requires Underway(provider, pieces, calls, pending) && pending != [] && call.segment == Top(pending)
    requires call.reply == provider(|calls|, call.segment)
    ensures Asked(provider, pieces, |calls|, call)
    ensures GoesOn(call) ==> Underway(provider, pieces, calls + [call], Below(pending))
    ensures GoesOn(call) && Split(call.segment).Some? ==>
              Underway(provider, pieces, calls + [call],
                       Below(pending) + [Split(call.segment).value.1, Split(call.segment).value.0])
  {
  }

  lemma {:induction false} TurnAccounted(text: seq<Byte>, calls: seq<Call>, pending: seq<seq<Byte>>, call: Call)
    requires Accounted(text, calls, pending) && pending != [] && call.segment == Top(pending)
    ensures call.reply.Embedded? ==> Accounted(text, calls + [call], Below(pending))
    ensures call.reply.Refused? && Split(call.segment).Some? ==>
              Accounted(text, calls + [call], Below(pending) + [Split(call.segment).value.1, Split(call.segment).value.0])
  {
    var rest := Below(pending);
    Record(calls, call);
    if call.reply.Embedded? {
      assert Covered(calls) + (call.segment + Pending(rest)) == (Covered(calls) + call.segment) + Pending(rest);
    } else if call.reply.Refused? && Split(call.segment).Some? {
      PushHalves(rest, call.segment);
      assert Covered(calls) + [] == Covered(calls);
    }
  }

  lemma {:induction false} TurnStopped(provider: Provider, text: seq<Byte>, initial: Option<string>, calls: seq<Call>, call: Call)
    requires Progress(provider, Pieces(text), calls) && Asked(provider, Pieces(text), |calls|, call) && !GoesOn(call)
    requires |calls| < MostCalls(|text|) - (if initial.Some? then 1 else 0)
    requires initial.None? ==> if calls == [] then call.segment == text else calls[0].segment == text
    ensures Transcript(provider, text, initial, calls + [call],
                       if call.reply.Refused? then InputRefused(call.reply.refusal) else Failed(call.reply.error))
  {
    var all := calls + [call];
    assert all[..|calls|] == calls && all[|calls|] == call;
  }

  lemma {:induction false} Begin(text: seq<Byte>)
    ensures Accounted(text, [], [text]) && MostCallsOfAll([text]) == MostCalls(|text|)
    ensures Split(text).Some? ==>
              var halves := [Split(text).value.1, Split(text).value.0];
              Accounted(text, [], halves) && MostCallsOfAll(halves) < MostCalls(|text|)
  {
    Push([], text);
    assert [] + [text] == [text];
    if Split(text).Some? {
      PushHalves([], text);
      var halves := [Split(text).value.1, Split(text).value.0];
      assert [] + halves == halves;
    }
  }

  // ---- the recursion the loop unrolls -------------------------------------------------

  /** The last call ended the run. */
  predicate Halts(calls: seq<Call>) {
    calls != [] && !GoesOn(calls[|calls| - 1])
  }

  /** The rest follows unless the run has ended. */
  function Then(first: seq<Call>, rest: seq<Call>): seq<Call> {
    if Halts(first) then first else first + rest
  }

  lemma {:induction false} ThenAssociates(first: seq<Call>, second: seq<Call>, rest: seq<Call>)
    requires !Halts(first) && second != []
    ensures Then(first + second, rest) == first + Then(second, rest)
  {
    assert (first + second)[|first| + |second| - 1] == second[|second| - 1];
    assert (first + second) + rest == first + (second + rest);
  }

  /** Send a segment as call number `k`; refused and splittable, bisect its left half and then its right. */
  function Bisect(provider: Provider, k: nat, segment: seq<Byte>): (calls: seq<Call>)
    ensures calls != []
    decreases |segment|
  {
    var call := Call(segment, provider(k, segment));
    if call.reply.Refused? && Split(segment).Some? then
      var left := Bisect(provider, k + 1, Split(segment).value.0);
      [call] + Then(left, Bisect(provider, k + 1 + |left|, Split(segment).value.1))
    else [call]
  }

  /** The calls made for a segment when the first is call number `k`. */
  type Caller = (nat, seq<Byte>) -> seq<Call>

  ghost predicate NeverSilent(caller: Caller) {
    forall k, segment :: caller(k, segment) != []
  }

  function Bisecting(provider: Provider): Caller {
    (k: nat, segment: seq<Byte>) => Bisect(provider, k, segment)
  }

  function Both(caller: Caller, k: nat, halves: (seq<Byte>, seq<Byte>)): seq<Call> {
    var left := caller(k, halves.0);
    Then(left, caller(k + |left|, halves.1))
  }

  /** The stack's segments, from the top down. */
  function InTurn(caller: Caller, k: nat, stack: seq<seq<Byte>>): seq<Call>
    decreases stack
  {
    if stack == [] then []
    else
      var first := caller(k, Top(stack));
      Then(first, InTurn(caller, k + |first|, Below(stack)))
  }

  lemma {:induction false} InTurnPushed(caller: Caller, k: nat, stack: seq<seq<Byte>>, segment: seq<Byte>)
    ensures var first := caller(k, segment);
            InTurn(caller, k, stack + [segment]) == Then(first, InTurn(caller, k + |first|, stack))
  {
    var pushed := stack + [segment];
    assert Top(pushed) == segment && Below(pushed) == stack;
  }

  lemma {:induction false} TwoPushed(
    caller: Caller, k: nat, stack: seq<seq<Byte>>, left: seq<Byte>, right: seq<Byte>, first: seq<Call>, second: seq<Call>)
    requires first == caller(k, left) && second == caller(k + |first|, right)
    ensures InTurn(caller, k, stack + [right, left]) ==
            Then(first, Then(second, InTurn(caller, k + |first| + |second|, stack)))
  {
    assert stack + [right, left] == (stack + [right]) + [left];
    InTurnPushed(caller, k, stack + [right], left);
    InTurnPushed(caller, k + |first|, stack, right);
  }

  /** Halves on the stack make the calls their segment still has to make. */
  lemma {:induction false} HalvesPushed(caller: Caller, k: nat, stack: seq<seq<Byte>>, halves: (seq<Byte>, seq<Byte>))
    requires NeverSilent(caller)
    ensures var first := Both(caller, k, halves);
            InTurn(caller, k, stack + [halves.1, halves.0]) == Then(first, InTurn(caller, k + |first|, stack))
  {
    var first := caller(k, halves.0);
    var second := caller(k + |first|, halves.1);
    TwoPushed(caller, k, stack, halves.0, halves.1, first, second);
    if !Halts(first) {
      ThenAssociates(first, second, InTurn(caller, k + |first| + |second|, stack));
    }
  }

  /** What is pending after a call that goes on. */
  function Pushed(below: seq<seq<Byte>>, call: Call): seq<seq<Byte>> {
    if call.reply.Refused? && Split(call.segment).Some?
    then below + [Split(call.segment).value.1, Split(call.segment).value.0]
    else below
  }

  /** A caller that sends its segment, and after a refusal its halves. */
  ghost predicate SendsThenBisects(caller: Caller, k: nat, call: Call) {
    caller(k, call.segment) ==
    [call] + if call.reply.Refused? && Split(call.segment).Some? then Both(caller, k + 1, Split(call.segment).value) else []
  }

  lemma {:induction false} RefusedTurn(caller: Caller, k: nat, below: seq<seq<Byte>>, call: Call, halves: seq<Call>)
    requires NeverSilent(caller) && call.reply.Refused? && Split(call.segment).Some?
    requires halves == Both(caller, k + 1, Split(call.segment).value) && caller(k, call.segment) == [call] + halves
    ensures InTurn(caller, k, below + [call.segment]) == [call] + InTurn(caller, k + 1, Pushed(below, call))
  {
    var rest := InTurn(caller, k + 1 + |halves|, below);
    InTurnPushed(caller, k, below, call.segment);
    HalvesPushed(caller, k + 1, below, Split(call.segment).value);
    ThenAssociates([call], halves, rest);
  }

  /** One turn of the loop makes the recursion's next call. */
  lemma {:induction false} TurnInTurn(caller: Caller, k: nat, below: seq<seq<Byte>>, call: Call)
    requires NeverSilent(caller) && SendsThenBisects(caller, k, call)
    ensures InTurn(caller, k, below + [call.segment]) == Then([call], InTurn(caller, k + 1, Pushed(below, call)))
  {
    if call.reply.Refused? && Split(call.segment).Some? {
      RefusedTurn(caller, k, below, call, Both(caller, k + 1, Split(call.segment).value));
    } else {
      InTurnPushed(caller, k, below, call.segment);
      assert caller(k, call.segment) == [call];
    }
  }

  lemma {:induction false} BisectingSends(provider: Provider, k: nat, call: Call)
    requires call.reply == provider(k, call.segment)
    ensures NeverSilent(Bisecting(provider)) && SendsThenBisects(Bisecting(provider), k, call)
  {
    assert [call] + [] == [call];
  }

  lemma {:induction false} TurnOnward(caller: Caller, calls: seq<Call>, pending: seq<seq<Byte>>, call: Call)
    requires NeverSilent(caller) && SendsThenBisects(caller, |calls|, call)
    requires pending != [] && call.segment == Top(pending)
    ensures calls + InTurn(caller, |calls|, pending) ==
            (calls + [call]) + if GoesOn(call) then InTurn(caller, |calls| + 1, Pushed(Below(pending), call)) else []
  {
    TurnInTurn(caller, |calls|, Below(pending), call);
    assert Below(pending) + [call.segment] == pending;
    Onward(calls, call, InTurn(caller, |calls| + 1, Pushed(Below(pending), call)));
  }

  lemma {:induction false} Onward(calls: seq<Call>, call: Call, rest: seq<Call>)
    ensures calls + Then([call], rest) == (calls + [call]) + if GoesOn(call) then rest else []
  {
  }

  /** The calls a rescue makes: the text's, or its halves' when its refusal is in hand. */
  function Rescue(provider: Provider, text: seq<Byte>, initial: Option<string>): seq<Call> {
    if initial.None? then Bisect(provider, 0, text)
    else if Split(text).None? then []
    else Both(Bisecting(provider), 0, Split(text).value)
  }

  /** The loop, from the text or from its halves. */
  method EmbedPending(provider: Provider, text: seq<Byte>, initial: Option<string>, stack: seq<seq<Byte>>)
    returns (end: End, calls: seq<Call>)
    requires Underway(provider, Pieces(text), [], stack) && Accounted(text, [], stack)
    requires MostCallsOfAll(stack) <= MostCalls(|text|) - (if initial.Some? then 1 else 0)
    requires initial.None? ==> stack == [text]
    ensures Transcript(provider, text, initial, calls, end)
    ensures calls == InTurn(Bisecting(provider), 0, stack)
  {
    var pending, vectors: seq<Vector> := stack, [];
    calls := [];
    ghost var most := MostCalls(|text|) - (if initial.Some? then 1 else 0);
    ghost var caller := Bisecting(provider);
    while pending != []
      invariant Underway(provider, Pieces(text), calls, pending)
      invariant Accounted(text, calls, pending)
      invariant vectors == Vectors(calls)
      invariant |calls| + MostCallsOfAll(pending) <= most
      invariant initial.None? ==> if calls == [] then pending == [text] else calls[0].segment == text
      invariant calls + InTurn(caller, |calls|, pending) == InTurn(caller, 0, stack)
      decreases MostCallsOfAll(pending)
    {
      var call := Call(Top(pending), provider(|calls|, Top(pending)));
      TurnUnderway(provider, Pieces(text), calls, pending, call);
      TurnAccounted(text, calls, pending, call);
      BisectingSends(provider, |calls|, call);
      TurnOnward(caller, calls, pending, call);
      Record(calls, call);
      if call.reply.Embedded? {
        vectors, pending := vectors + [call.reply.vector], Below(pending);
      } else if call.reply.Refused? {
        var halves := SplitSegment(call.segment);
        if halves.None? {
          TurnStopped(provider, text, initial, calls, call);
          return InputRefused(call.reply.refusal), calls + [call];
        }
        PushHalves(Below(pending), call.segment);
        pending := Below(pending) + [halves.value.1, halves.value.0];
      } else {
        TurnStopped(provider, text, initial, calls, call);
        return Failed(call.reply.error), calls + [call];
      }
      calls := calls + [call];
    }
    assert Covered(calls) + [] == Covered(calls);
    assert calls + [] == calls;
    end := Complete(vectors);
  }

  lemma {:induction false} StackInTurn(caller: Caller, text: seq<Byte>, halves: (seq<Byte>, seq<Byte>))
    requires NeverSilent(caller)
    ensures InTurn(caller, 0, [text]) == caller(0, text)
    ensures InTurn(caller, 0, [halves.1, halves.0]) == Both(caller, 0, halves)
  {
    InTurnPushed(caller, 0, [], text);
    HalvesPushed(caller, 0, [], halves);
    var both := [halves.1, halves.0];
    assert [] + [text] == [text] && [] + both == both;
    assert caller(0, text) + [] == caller(0, text) && Both(caller, 0, halves) + [] == Both(caller, 0, halves);
  }

  /** Every run ends, its calls are those of the recursive bisection, and with its result they are a transcript. */
  method EmbedInChunks(provider: Provider, text: seq<Byte>, initial: Option<string>)
    returns (end: End, calls: seq<Call>)
    ensures Transcript(provider, text, initial, calls, end)
    ensures calls == Rescue(provider, text, initial)
  {
    var pending: seq<seq<Byte>> := [text];
    PiecesAreClosed(text);
    Begin(text);
    StackInTurn(Bisecting(provider), text, if Split(text).Some? then Split(text).value else ([], []));
    if initial.Some? {
      var halves := SplitSegment(text);
      if halves.None? {
        return InputRefused(initial.value), [];
      }
      pending := [halves.value.1, halves.value.0];
    }
    end, calls := EmbedPending(provider, text, initial, pending);
  }

  // ---- the largest unsplittable segment -----------------------------------------------

  lemma {:induction false} AsciiUnsplittable(s: seq<Byte>)
    requires Ascii(s)
    ensures Split(s).None? <==> |s| <= MIN_CAP_CHARS
    ensures Chars(s) == |s|
  {
    AsciiIsText(s);
    assert CutAt(s, |s| / 2) == |s| / 2;
  }

  /** No unsplittable UTF-8 segment passes 4101 bytes or 4098 characters. */
  lemma {:induction false} TextUnsplittable(s: seq<Byte>)
    requires Text(s) && Split(s).None?
    ensures |s| <= 4101 && Chars(s) <= 4098
  {
    var half := |s| / 2;
    var cut := CutAt(s, half);
    CutIsLastBoundary(s, half);
    var d := BoundaryWithinThree(s, half);
    assert half - d <= cut < MIN_PIECE;
    CharsAtMostBytes(s);
    if |s| > 4095 {
      forall i | cut + 1 <= i < half + 1
        ensures Continuation(s[i])
      {
        assert !Boundary(s, i);
      }
      CharsWithRun(s, cut + 1, half + 1);
    }
  }

  function Letters(n: nat): (s: seq<Byte>)
    ensures |s| == n && Ascii(s)
  {
    seq(n, i => 0x61)
  }

  /** U+1F600, four bytes. */
  function Emoji(): (s: seq<Byte>)
    ensures |s| == 4
  {
    [0xF0, 0x9F, 0x98, 0x80]
  }

  lemma {:induction false} EmojiIsOneCharacter()
    ensures Text(Emoji()) && Chars(Emoji()) == 1
  {
    assert StartsWithCharacter(Emoji()) && Emoji()[4..] == [];
    ContinuationsAreNoChars(Emoji()[1..]);
  }

  /** 2047 letters, one four-byte character, 2050 letters. */
  function LargestPiece(): (s: seq<Byte>)
    ensures |s| == 4101
  {
    Letters(2047) + Emoji() + Letters(2050)
  }

  lemma {:induction false} LargestPieceIsText()
    ensures Text(LargestPiece()) && Chars(LargestPiece()) == 4098
  {
    EmojiIsOneCharacter();
    AsciiIsText(Letters(2047));
    AsciiIsText(Letters(2050));
    TextConcat(Letters(2047), Emoji());
    TextConcat(Letters(2047) + Emoji(), Letters(2050));
    CharsOfConcat(Letters(2047), Emoji());
    CharsOfConcat(Letters(2047) + Emoji(), Letters(2050));
  }

  /** Both maxima are reached, by one text. */
  lemma {:induction false} LargestPieceIsUnsplittable()
    ensures Split(LargestPiece()).None?
  {
    var s := LargestPiece();
    assert s[2048] == Emoji()[1] && s[2049] == Emoji()[2] && s[2050] == Emoji()[3];
    assert !Boundary(s, 2048) && !Boundary(s, 2049) && !Boundary(s, 2050);
    CutIsLastBoundary(s, 2050);
  }

  // ---- which input caps the rescue can satisfy ----------------------------------------

  /** A provider that embeds everything up to `cap` characters and otherwise only refuses. */
  ghost predicate Accepts(provider: Provider, cap: nat) {
    && (forall i, s :: !provider(i, s).Failure?)
    && (forall i, s :: Chars(s) <= cap ==> provider(i, s).Embedded?)
  }

  function Capped(cap: nat): (p: Provider)
    ensures Accepts(p, cap)
  {
    (i: nat, s: seq<Byte>) => if Chars(s) <= cap then Embedded([]) else Refused("too long")
  }

  /** Started from a refusal in hand, which such a provider gives only of a text over the cap, or from the text. */
  predicate StartedFrom(rescue: bool, initial: Option<string>, text: seq<Byte>, cap: nat) {
    initial.Some? == rescue && (rescue ==> Chars(text) > cap)
  }

  /** Every transcript over this text, with any provider accepting up to `cap` characters, is complete. */
  ghost predicate AlwaysEmbeds(text: seq<Byte>, cap: nat, rescue: bool) {
    forall provider: Provider, initial, calls, end ::
      (&& Accepts(provider, cap) && StartedFrom(rescue, initial, text, cap)
       && Transcript(provider, text, initial, calls, end)) ==> end.Complete?
  }

  lemma {:induction false} EmbedsUnder(
    provider: Provider, text: seq<Byte>, cap: nat, rescue: bool, initial: Option<string>, calls: seq<Call>, end: End)
    requires Accepts(provider, cap) && StartedFrom(rescue, initial, text, cap)
    requires Transcript(provider, text, initial, calls, end)
    requires (Ascii(text) && cap >= 4095) || (Text(text) && cap >= 4098)
    ensures end.Complete?
  {
    if !end.Complete? {
      var segment := if calls == [] then text else calls[|calls| - 1].segment;
      if segment != text {
        PieceShape(text, segment);
      }
      if Ascii(text) && cap >= 4095 {
        AsciiUnsplittable(segment);
      } else {
        TextUnsplittable(segment);
      }
    }
  }

  /** Embedded under the cap, for texts of one kind. */
  lemma {:induction false} AllEmbedUnder(text: seq<Byte>, cap: nat, rescue: bool)
    requires (Ascii(text) && cap >= 4095) || (Text(text) && cap >= 4098)
    ensures AlwaysEmbeds(text, cap, rescue)
  {
    forall provider: Provider, initial, calls, end
      | Accepts(provider, cap) && StartedFrom(rescue, initial, text, cap)
        && Transcript(provider, text, initial, calls, end)
      ensures end.Complete?
    {
      EmbedsUnder(provider, text, cap, rescue, initial, calls, end);
    }
  }

  /** An unsplittable text over the cap has one run from the text, and it is refused. */
  lemma {:induction false} RefusedOver(text: seq<Byte>, cap: nat)
    requires Split(text).None? && Chars(text) > cap
    ensures forall calls, end :: Transcript(Capped(cap), text, None, calls, end) <==>
              calls == [Call(text, Refused("too long"))] && end == InputRefused("too long")
    ensures !AlwaysEmbeds(text, cap, false)
  {
    var only, refused := [Call(text, Refused("too long"))], InputRefused("too long");
    OneRefusedCall(text, cap);
    assert StartedFrom(false, None, text, cap);
    forall calls: seq<Call>, end | Transcript(Capped(cap), text, None, calls, end)
      ensures calls == only && end == refused
    {
      FirstCallStops(text, cap, calls, end);
    }
  }

  lemma {:induction false} OneRefusedCall(text: seq<Byte>, cap: nat)
    requires Split(text).None? && Chars(text) > cap
    ensures Transcript(Capped(cap), text, None, [Call(text, Refused("too long"))], InputRefused("too long"))
  {
    var only := [Call(text, Refused("too long"))];
    assert only[..0] == [];
  }

  lemma {:induction false} FirstCallStops(text: seq<Byte>, cap: nat, calls: seq<Call>, end: End)
    requires Split(text).None? && Chars(text) > cap && Transcript(Capped(cap), text, None, calls, end)
    ensures calls == [Call(text, Refused("too long"))] && end == InputRefused("too long")
  {
    if 1 < |calls| {
      assert calls[..|calls| - 1][0] == calls[0] || end.Complete?;
    }
    RefusedAtOnce(Pieces(text), text, cap, calls[0]);
  }

  lemma {:induction false} RefusedAtOnce(pieces: iset<seq<Byte>>, text: seq<Byte>, cap: nat, call: Call)
    requires Split(text).None? && Chars(text) > cap && call.segment == text
    requires Asked(Capped(cap), pieces, 0, call)
    ensures call == Call(text, Refused("too long")) && !GoesOn(call)
  {
  }

  /** Started from its refusal, every run ends refused; the rescue hands that refusal back without a call. */
  lemma {:induction false} RefusedAgain(text: seq<Byte>, cap: nat, refusal: string)
    requires Split(text).None? && Chars(text) > cap
    ensures Transcript(Capped(cap), text, Some(refusal), [], InputRefused(refusal))
    ensures forall calls, end :: Transcript(Capped(cap), text, Some(refusal), calls, end) ==> end.InputRefused?
    ensures !AlwaysEmbeds(text, cap, true)
  {
    var none: seq<Call> := [];
    assert Transcript(Capped(cap), text, Some(refusal), none, InputRefused(refusal));
    assert StartedFrom(true, Some(refusal), text, cap);
    forall calls: seq<Call>, end | Transcript(Capped(cap), text, Some(refusal), calls, end)
      ensures end.InputRefused?
    {
      NeverComplete(text, cap, refusal, calls, end);
    }
  }

  lemma {:induction false} NeverComplete(text: seq<Byte>, cap: nat, refusal: string, calls: seq<Call>, end: End)
    requires Split(text).None? && Chars(text) > cap && Transcript(Capped(cap), text, Some(refusal), calls, end)
    ensures end.InputRefused?
  {
  }

  /** 4095 characters is the least cap under which every ASCII text is embedded, from the text or from its refusal. */
  lemma {:induction false} LeastCapForAscii(cap: nat, rescue: bool)
    ensures (forall text :: Ascii(text) ==> AlwaysEmbeds(text, cap, rescue)) <==> cap >= MIN_CAP_CHARS
  {
    if cap >= MIN_CAP_CHARS {
      forall text | Ascii(text) ensures AlwaysEmbeds(text, cap, rescue) {
        AllEmbedUnder(text, cap, rescue);
      }
    } else {
      var text := Letters(MIN_CAP_CHARS);
      AsciiUnsplittable(text);
      RefusedOver(text, cap);
      RefusedAgain(text, cap, "too long");
    }
  }

  /** For UTF-8 text the least such cap is 4098, three above the documented constant. */
  lemma {:induction false} LeastCapForText(cap: nat, rescue: bool)
    ensures (forall text :: Text(text) ==> AlwaysEmbeds(text, cap, rescue)) <==> cap >= MIN_CAP_CHARS + 3
  {
    if cap >= 4098 {
      forall text | Text(text) ensures AlwaysEmbeds(text, cap, rescue) {
        AllEmbedUnder(text, cap, rescue);
      }
    } else {
      LargestPieceIsText();
      LargestPieceIsUnsplittable();
      RefusedOver(LargestPiece(), cap);
      RefusedAgain(LargestPiece(), cap, "too long");
    }
  }
}
