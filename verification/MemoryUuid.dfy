/**
  The process-wide monotonic generator of memory UUIDs.

  A mint advances a (millisecond, counter) mark and packs it, the store number and the
  remaining random bits into the sixteen bytes of a UUIDv8. Every call goes through one
  mutex, so a run of the generator is a sequence of requests.
 */
module MemoryUuid {
  import opened Wrappers
  import opened Bytes

  const MAX_MILLIS: nat := 0xFFFF_FFFF_FFFF
  const MAX_COUNTER: nat := 0xFFF

  /** What the generator remembers of its latest success. */
  datatype Mark = Mark(millis: nat, counter: nat) {
    predicate Valid() {
      millis <= MAX_MILLIS && counter <= MAX_COUNTER
    }

    /** The first eight bytes of any UUID minted at this mark, as a number. */
    function Rank(): nat {
      millis * 0x1_0000 + 0x8000 + counter
    }
  }

  /** One call: the clock it read, its random bytes, and the caller's store number and floor. */
  datatype Request = Request(clock: nat, random: seq<Byte>, store: nat, floor: Option<seq<Byte>>) {
    predicate Valid() {
      && clock < 0x1_0000_0000_0000_0000
      && |random| == 16
      && store < 0x1_0000
      && (floor.Some? ==> |floor.value| == 16)
    }

    function Seed(): nat
      requires Valid()
    {
      Word(random[6], random[7]) % 0x1000
    }

    function FloorMark(): Option<Mark>
      requires Valid()
    {
      if floor.None? then None else Some(MarkOf(floor.value))
    }
  }

  /** Two big-endian bytes as a 16-bit number. */
  function Word(high: Byte, low: Byte): nat {
    var h: int := high;
    256 * h + low
  }

  function Timestamp(id: seq<Byte>): nat
    requires |id| == 16
  {
    Value(id[..6])
  }

  function StoreNumber(id: seq<Byte>): nat
    requires |id| == 16
  {
    Word(id[10], id[11])
  }

  function VersionNibble(id: seq<Byte>): nat
    requires |id| == 16
  {
    id[6] / 16
  }

  function MarkOf(id: seq<Byte>): Mark
    requires |id| == 16
  {
    Mark(Timestamp(id), Word(id[6], id[7]) % 0x1000)
  }

  /** Later of two optional marks; an absent one is earliest. */
  function Later(a: Option<Mark>, b: Option<Mark>): Option<Mark> {
    if a.None? then b
    else if b.None? then a
    else if a.value.millis < b.value.millis
         || (a.value.millis == b.value.millis && a.value.counter < b.value.counter) then b
    else a
  }

  function Advance(base: Option<Mark>, clock: nat, seed: nat): Mark {
    if base.Some? && clock <= base.value.millis then
      if base.value.counter == MAX_COUNTER then Mark(base.value.millis + 1, seed)
      else Mark(base.value.millis, base.value.counter + 1)
    else Mark(clock, seed)
  }

  function NextMark(previous: Option<Mark>, request: Request): Mark
    requires request.Valid()
  {
    Advance(Later(previous, request.FloorMark()), request.clock, request.Seed())
  }

  function Pack(mark: Mark, request: Request): (id: seq<Byte>)
    requires request.Valid()
    ensures |id| == 16
  {
    BigEndian(mark.millis, 6) + BigEndian(0x8000 + mark.counter, 2)
    + [0x80 + request.random[8] % 0x40, request.random[9]]
    + BigEndian(request.store, 2) + request.random[12..]
  }

  /** The mark after a request; a refused one leaves it alone. */
  function MarkAfter(previous: Option<Mark>, request: Request): Option<Mark>
    requires request.Valid()
  {
    var next := NextMark(previous, request);
    if next.millis > MAX_MILLIS then previous else Some(next)
  }

  function Minted(previous: Option<Mark>, request: Request): (id: Option<seq<Byte>>)
    requires request.Valid()
    ensures id.Some? ==> |id.value| == 16
  {
    var next := NextMark(previous, request);
    if next.millis > MAX_MILLIS then None else Some(Pack(next, request))
  }

  class Generator {
    var previous: Option<Mark>

    constructor ()
      ensures previous == None
    {
      previous := None;
    }

    /** One mint: the new mark and the bytes are those of the specification above. */
    method Mint(request: Request) returns (id: Option<seq<Byte>>)
      requires request.Valid()
      modifies this
      ensures id == Minted(old(previous), request)
      ensures previous == MarkAfter(old(previous), request)
    {
      var base := Later(previous, request.FloorMark());
      var millis, counter := request.clock, request.Seed();
      if base.Some? && request.clock <= base.value.millis {
        if base.value.counter == MAX_COUNTER {
          millis := base.value.millis + 1;
        } else {
          millis, counter := base.value.millis, base.value.counter + 1;
        }
      }
      if millis > MAX_MILLIS {
        return None;
      }
      previous := Some(Mark(millis, counter));
      var bytes := new Byte[16](i requires 0 <= i < 16 => request.random[i]);
      var head, tag, store := BigEndian(millis, 6), BigEndian(0x8000 + counter, 2), BigEndian(request.store, 2);
      forall i | 0 <= i < 6 { bytes[i] := head[i]; }
      forall i | 6 <= i < 8 { bytes[i] := tag[i - 6]; }
      bytes[8] := 0x80 + bytes[8] % 0x40;
      forall i | 10 <= i < 12 { bytes[i] := store[i - 10]; }
      assert bytes[..] == Pack(Mark(millis, counter), request);
      id := Some(bytes[..]);
    }
  }

  // ---- layout -------------------------------------------------------------------------

  lemma MarkOfIsValid(id: seq<Byte>)
    requires |id| == 16
    ensures MarkOf(id).Valid()
  {
    ValueBound(id[..6]);
    assert Pow256(6) == 0x1_0000_0000_0000;
  }

  lemma HeadOfPack(mark: Mark, request: Request)
    requires request.Valid() && mark.Valid()
    ensures Pack(mark, request)[..6] == BigEndian(mark.millis, 6)
    ensures Pack(mark, request)[6..8] == BigEndian(0x8000 + mark.counter, 2)
    ensures Value(Pack(mark, request)[..6]) == mark.millis
    ensures Value(Pack(mark, request)[6..8]) == 0x8000 + mark.counter
  {
    assert Pow256(6) == 0x1_0000_0000_0000 && Pow256(2) == 0x1_0000;
    ValueOfBigEndian(mark.millis, 6);
    ValueOfBigEndian(0x8000 + mark.counter, 2);
  }

  lemma ValueOfWord(a: Byte, b: Byte)
    ensures Value([a, b]) == Word(a, b)
  {
    assert [a, b][..1] == [a] && [a][..0] == [];
    assert Value([a]) == 256 * Value([a][..0]) + a;
  }

  lemma RankOfPack(mark: Mark, request: Request)
    requires request.Valid() && mark.Valid()
    ensures Value(Pack(mark, request)[..8]) == mark.Rank()
  {
    var id := Pack(mark, request);
    HeadOfPack(mark, request);
    assert id[..8] == id[..6] + id[6..8];
    ValueOfConcat(id[..6], id[6..8]);
    assert Pow256(2) == 0x1_0000;
  }

  /** Timestamp, counter, store number, version 8 and the RFC 9562 variant read back from the bytes. */
  lemma LayoutReadsBack(mark: Mark, request: Request)
    requires request.Valid() && mark.Valid()
    ensures var id := Pack(mark, request);
            && MarkOf(id) == mark
            && StoreNumber(id) == request.store
            && VersionNibble(id) == 8
            && id[8] / 0x40 == 2
            && id[8] % 0x40 == request.random[8] % 0x40
            && id[9] == request.random[9] && id[12..] == request.random[12..]
  {
    MarkReadsBack(mark, request);
    StoreReadsBack(mark, request);
  }

  lemma MarkReadsBack(mark: Mark, request: Request)
    requires request.Valid() && mark.Valid()
    ensures MarkOf(Pack(mark, request)) == mark && VersionNibble(Pack(mark, request)) == 8
  {
    var id := Pack(mark, request);
    HeadOfPack(mark, request);
    assert id[6..8] == [id[6], id[7]];
    ValueOfWord(id[6], id[7]);
    assert Word(id[6], id[7]) == 0x8000 + mark.counter;
  }

  lemma StoreReadsBack(mark: Mark, request: Request)
    requires request.Valid() && mark.Valid()
    ensures StoreNumber(Pack(mark, request)) == request.store
  {
    var id := Pack(mark, request);
    assert id[10..12] == [id[10], id[11]] == BigEndian(request.store, 2);
    ValueOfWord(id[10], id[11]);
    assert Pow256(2) == 0x1_0000;
    ValueOfBigEndian(request.store, 2);
  }

  lemma TwoBytes(v: nat)
    requires v < 0x1_0000
    ensures BigEndian(v, 2) == [v / 256, v % 256]
  {
    assert BigEndian(v / 256, 1) == BigEndian(v / 256 / 256, 0) + [v / 256 % 256];
  }

  lemma SixBytes(v: nat)
    requires v <= MAX_MILLIS
    ensures BigEndian(v, 6) == [v / 0x100_0000_0000, v / 0x1_0000_0000 % 256, v / 0x100_0000 % 256,
                                v / 0x1_0000 % 256, v / 0x100 % 256, v % 256]
  {
    var a := v / 256;
    var b := a / 256;
    var c := b / 256;
    var d := c / 256;
    assert a == v / 0x100 && b == v / 0x1_0000 && c == v / 0x100_0000 && d == v / 0x1_0000_0000;
    TwoBytes(d);
    assert BigEndian(c, 3) == BigEndian(d, 2) + [c % 256];
    assert BigEndian(b, 4) == BigEndian(c, 3) + [b % 256];
    assert BigEndian(a, 5) == BigEndian(b, 4) + [a % 256];
    assert d / 256 == v / 0x100_0000_0000;
  }

  /** The sixteen bytes one by one. */
  lemma LayoutInBytes(mark: Mark, request: Request)
    requires request.Valid() && mark.Valid()
    ensures var ms := mark.millis;
            Pack(mark, request) ==
            [ms / 0x100_0000_0000, ms / 0x1_0000_0000 % 256, ms / 0x100_0000 % 256,
             ms / 0x1_0000 % 256, ms / 0x100 % 256, ms % 256,
             0x80 + mark.counter / 256, mark.counter % 256,
             0x80 + request.random[8] % 0x40, request.random[9],
             request.store / 256, request.store % 256,
             request.random[12], request.random[13], request.random[14], request.random[15]]
  {
    SixBytes(mark.millis);
    TwoBytes(0x8000 + mark.counter);
    TwoBytes(request.store);
    var r := request.random;
    assert r[12..] == [r[12], r[13], r[14], r[15]];
  }

  // ---- one mint -----------------------------------------------------------------------

  predicate ValidState(previous: Option<Mark>) {
    previous.Some? ==> previous.value.Valid()
  }

  lemma AdvanceMovesPast(base: Option<Mark>, clock: nat, seed: nat)
    requires ValidState(base) && seed <= MAX_COUNTER
    ensures var next := Advance(base, clock, seed);
            && next.counter <= MAX_COUNTER
            && clock <= next.millis
            && (base.Some? ==> base.value.Rank() < next.Rank())
            && next.millis <= (if base.Some? && clock <= base.value.millis then base.value.millis + 1 else clock)
  {
  }

  lemma NextMarkMovesPast(previous: Option<Mark>, request: Request)
    requires request.Valid() && ValidState(previous)
    ensures NextMark(previous, request).counter <= MAX_COUNTER
    ensures request.clock <= NextMark(previous, request).millis
    ensures previous.Some? ==> previous.value.Rank() < NextMark(previous, request).Rank()
    ensures request.floor.Some? ==> MarkOf(request.floor.value).Rank() < NextMark(previous, request).Rank()
  {
    if request.floor.Some? {
      MarkOfIsValid(request.floor.value);
    }
    AdvanceMovesPast(Later(previous, request.FloorMark()), request.clock, request.Seed());
  }

  /** A mint refuses exactly when the clock, or the mark it must pass, has no room left in 48 bits. */
  lemma RefusedExactlyAtTheEnd(previous: Option<Mark>, request: Request)
    requires request.Valid() && ValidState(previous)
    ensures Minted(previous, request).None? <==>
            || request.clock > MAX_MILLIS
            || previous == Some(Mark(MAX_MILLIS, MAX_COUNTER))
            || request.FloorMark() == Some(Mark(MAX_MILLIS, MAX_COUNTER))
    ensures Minted(previous, request).None? ==> MarkAfter(previous, request) == previous
  {
    if request.floor.Some? {
      MarkOfIsValid(request.floor.value);
    }
  }

  /** A minted id exceeds every id minted at the generator's previous mark. */
  lemma MintExceedsPrevious(previous: Mark, earlier: Request, request: Request)
    requires earlier.Valid() && request.Valid() && previous.Valid()
    requires Minted(Some(previous), request).Some?
    ensures Less(Pack(previous, earlier), Minted(Some(previous), request).value)
  {
    var next := NextMark(Some(previous), request);
    NextMarkMovesPast(Some(previous), request);
    PackOrder(previous, earlier, next, request);
  }

  lemma PackOrder(a: Mark, ra: Request, b: Mark, rb: Request)
    requires ra.Valid() && rb.Valid() && a.Valid() && b.Valid() && a.Rank() < b.Rank()
    ensures Less(Pack(a, ra), Pack(b, rb))
  {
    RankOfPack(a, ra);
    RankOfPack(b, rb);
    OrderByHead(Pack(a, ra), Pack(b, rb));
  }

  lemma OrderByHead(a: seq<Byte>, b: seq<Byte>)
    requires |a| == |b| == 16 && Value(a[..8]) < Value(b[..8])
    ensures Less(a, b)
  {
    LessIsValueOrder(a[..8], b[..8]);
    LessBeforeTails(a[..8], b[..8], a[8..], b[8..]);
    assert a == a[..8] + a[8..] && b == b[..8] + b[8..];
  }

  /** The head of any sixteen bytes: the mark, shifted by how far the version nibble is from 8. */
  lemma HeadOfAny(id: seq<Byte>)
    requires |id| == 16
    ensures Value(id[..8]) == Timestamp(id) * 0x1_0000 + VersionNibble(id) * 0x1000 + MarkOf(id).counter
  {
    assert id[..8] == id[..6] + [id[6], id[7]];
    ValueOfConcat(id[..6], [id[6], id[7]]);
    ValueOfWord(id[6], id[7]);
    assert Pow256(2) == 0x1_0000;
  }

  /**
    A minted id exceeds its floor exactly when the floor's version nibble is at most 8 or the
    mint landed in a later millisecond, which happens when the clock or the generator is past
    the floor's millisecond or the counter to pass is exhausted.
   */
  lemma MintExceedsFloor(previous: Option<Mark>, request: Request)
    requires request.Valid() && ValidState(previous)
    requires request.floor.Some? && Minted(previous, request).Some?
    ensures var floor := MarkOf(request.floor.value);
            Less(request.floor.value, Minted(previous, request).value) <==>
            || VersionNibble(request.floor.value) <= 8
            || request.clock > floor.millis
            || (previous.Some? && previous.value.millis > floor.millis)
            || Later(previous, Some(floor)).value.counter == MAX_COUNTER
  {
    var floor := request.floor.value;
    var next := NextMark(previous, request);
    var id := Pack(next, request);
    MarkOfIsValid(floor);
    NextMarkMovesPast(previous, request);
    HeadOfAny(floor);
    RankOfPack(next, request);
    LessIsValueOrder(floor[..8], id[..8]);
    if Value(floor[..8]) < Value(id[..8]) {
      OrderByHead(floor, id);
    } else {
      assert Value(id[..8]) < Value(floor[..8]);
      OrderByHead(id, floor);
      if Less(floor, id) {
        LessIsTransitive(floor, id, floor);
        LessIsIrreflexive(floor);
      }
    }
  }

  /** A floor of a later version can stay above the id minted for it. */
  lemma LaterVersionFloorIsNotExceeded()
    ensures exists request: Request ::
              && request.Valid() && request.floor.Some?
              && Minted(None, request).Some?
              && !Less(request.floor.value, Minted(None, request).value)
  {
    var floor: seq<Byte> := seq(16, i => if i == 6 then 0xF0 else 0);
    var request := Request(0, seq(16, i => 0), 0, Some(floor));
    assert floor[..6] == BigEndian(0, 6) by {
      assert BigEndian(0, 1) == [0] && BigEndian(0, 2) == [0, 0] && BigEndian(0, 3) == [0, 0, 0];
      assert BigEndian(0, 4) == [0, 0, 0, 0] && BigEndian(0, 5) == [0, 0, 0, 0, 0];
    }
    assert Pow256(6) == 0x1_0000_0000_0000;
    ValueOfBigEndian(0, 6);
    assert request.Valid() && MarkOf(floor) == Mark(0, 0);
    MintExceedsFloor(None, request);
  }

  // ---- runs ---------------------------------------------------------------------------

  predicate ValidRun(requests: seq<Request>) {
    forall i :: 0 <= i < |requests| ==> requests[i].Valid()
  }

  /** The generator's mark after a run from its initial state. */
  function After(requests: seq<Request>): Option<Mark>
    requires ValidRun(requests)
  {
    if requests == [] then None
    else MarkAfter(After(requests[..|requests| - 1]), requests[|requests| - 1])
  }

  /** What the call at index `i` of the run returned. */
  function Output(requests: seq<Request>, i: nat): (id: Option<seq<Byte>>)
    requires ValidRun(requests) && i < |requests|
    ensures id.Some? ==> |id.value| == 16
  {
    Minted(After(requests[..i]), requests[i])
  }

  lemma {:induction false} AfterIsValid(requests: seq<Request>)
    requires ValidRun(requests)
    ensures ValidState(After(requests))
  {
    if requests != [] {
      var before := requests[..|requests| - 1];
      AfterIsValid(before);
      NextMarkMovesPast(After(before), requests[|requests| - 1]);
    }
  }

  lemma MarkAfterMovesOn(previous: Option<Mark>, request: Request)
    requires request.Valid() && ValidState(previous)
    ensures previous.Some? ==> MarkAfter(previous, request).Some?
                               && previous.value.Rank() <= MarkAfter(previous, request).value.Rank()
    ensures Minted(previous, request).Some? ==> MarkAfter(previous, request) == Some(NextMark(previous, request))
  {
    NextMarkMovesPast(previous, request);
  }

  /** The mark never moves back, and a success leaves the mark it packed. */
  lemma {:induction false} MarkIsMonotone(requests: seq<Request>, i: nat)
    requires ValidRun(requests) && i < |requests| && Output(requests, i).Some?
    ensures After(requests).Some?
    ensures NextMark(After(requests[..i]), requests[i]).Rank() <= After(requests).value.Rank()
  {
    var n := |requests| - 1;
    var before := requests[..n];
    AfterIsValid(before);
    MarkAfterMovesOn(After(before), requests[n]);
    if i < n {
      assert before[..i] == requests[..i];
      MarkIsMonotone(before, i);
    }
  }

  /**
    Over every run, whatever the clocks, random bytes, store numbers and floors, a later
    success is greater than an earlier one in the order of the sixteen bytes.
   */
  lemma SuccessesStrictlyIncrease(requests: seq<Request>, i: nat, j: nat)
    requires ValidRun(requests) && i < j < |requests|
    requires Output(requests, i).Some? && Output(requests, j).Some?
    ensures Less(Output(requests, i).value, Output(requests, j).value)
  {
    var before := requests[..j];
    assert before[..i] == requests[..i];
    assert Output(before, i) == Output(requests, i);
    MarkIsMonotone(before, i);
    AfterIsValid(before);
    AfterIsValid(requests[..i]);
    NextMarkMovesPast(After(requests[..i]), requests[i]);
    NextMarkMovesPast(After(before), requests[j]);
    PackOrder(NextMark(After(requests[..i]), requests[i]), requests[i],
              NextMark(After(before), requests[j]), requests[j]);
  }

  /** The call at `i` must pass this mark: an earlier success carries it, or its floor does. */
  predicate MustPass(requests: seq<Request>, i: nat, mark: Mark)
    requires ValidRun(requests) && i < |requests|
  {
    || (exists j :: 0 <= j < i && Carries(requests, j, mark))
    || requests[i].FloorMark() == Some(mark)
  }

  predicate Carries(requests: seq<Request>, j: nat, mark: Mark)
    requires ValidRun(requests) && j < |requests|
  {
    Output(requests, j).Some? && MarkOf(Output(requests, j).value) == mark
  }

  predicate NotLater(a: Mark, b: Mark) {
    a.millis < b.millis || (a.millis == b.millis && a.counter <= b.counter)
  }

  /** The latest mark the call at `i` must pass. */
  ghost predicate LatestToPass(requests: seq<Request>, i: nat, mark: Mark)
    requires ValidRun(requests) && i < |requests|
  {
    MustPass(requests, i, mark) && forall other :: MustPass(requests, i, other) ==> NotLater(other, mark)
  }

  lemma CarriedMark(requests: seq<Request>, j: nat)
    requires ValidRun(requests) && j < |requests| && Output(requests, j).Some?
    ensures MarkOf(Output(requests, j).value) == NextMark(After(requests[..j]), requests[j])
    ensures NextMark(After(requests[..j]), requests[j]).Valid()
  {
    AfterIsValid(requests[..j]);
    NextMarkMovesPast(After(requests[..j]), requests[j]);
    MarkReadsBack(NextMark(After(requests[..j]), requests[j]), requests[j]);
  }

  lemma AfterOneMore(requests: seq<Request>, i: nat)
    requires ValidRun(requests) && i < |requests|
    ensures After(requests[..i + 1]) == MarkAfter(After(requests[..i]), requests[i])
    ensures if Output(requests, i).Some? then Some(MarkOf(Output(requests, i).value)) == After(requests[..i + 1])
            else After(requests[..i + 1]) == After(requests[..i])
  {
    assert requests[..i + 1][..i] == requests[..i];
    if Output(requests, i).Some? {
      CarriedMark(requests, i);
    }
  }

  /** The generator's mark is that of its last success, and absent before the first. */
  lemma {:induction false} MarkIsOfTheLastSuccess(requests: seq<Request>, i: nat) returns (j: nat)
    requires ValidRun(requests) && i <= |requests|
    ensures After(requests[..i]).Some? ==> j < i && Carries(requests, j, After(requests[..i]).value)
    ensures After(requests[..i]).None? ==> forall k :: 0 <= k < i ==> Output(requests, k).None?
  {
    j := 0;
    if i > 0 {
      AfterOneMore(requests, i - 1);
      if Output(requests, i - 1).Some? {
        j := i - 1;
      } else {
        j := MarkIsOfTheLastSuccess(requests, i - 1);
      }
    }
  }

  lemma EarlierSuccessIsNotLater(requests: seq<Request>, i: nat, j: nat, mark: Mark)
    requires ValidRun(requests) && j < i < |requests| && Carries(requests, j, mark)
    ensures After(requests[..i]).Some? && NotLater(mark, After(requests[..i]).value)
  {
    var before := requests[..i];
    assert before[..j] == requests[..j];
    assert Output(before, j) == Output(requests, j);
    MarkIsMonotone(before, j);
    CarriedMark(requests, j);
    AfterIsValid(before);
  }

  lemma BaseIsTheLatestToPass(requests: seq<Request>, i: nat)
    requires ValidRun(requests) && i < |requests|
    ensures var base := Later(After(requests[..i]), requests[i].FloorMark());
            if base.Some? then LatestToPass(requests, i, base.value) else forall mark :: !MustPass(requests, i, mark)
  {
    var previous := After(requests[..i]);
    var base := Later(previous, requests[i].FloorMark());
    var last := MarkIsOfTheLastSuccess(requests, i);
    forall mark | MustPass(requests, i, mark)
      ensures base.Some? && NotLater(mark, base.value)
    {
      if requests[i].FloorMark() != Some(mark) {
        var j :| 0 <= j < i && Carries(requests, j, mark);
        EarlierSuccessIsNotLater(requests, i, j, mark);
      }
    }
  }

  lemma PastEveryMark(requests: seq<Request>, i: nat)
    requires ValidRun(requests) && i < |requests|
    requires forall mark :: MustPass(requests, i, mark) ==> mark.millis < requests[i].clock
    ensures NextMark(After(requests[..i]), requests[i]) == Mark(requests[i].clock, requests[i].Seed())
  {
    BaseIsTheLatestToPass(requests, i);
  }

  lemma BaseIsThatMark(requests: seq<Request>, i: nat, mark: Mark)
    requires ValidRun(requests) && i < |requests| && LatestToPass(requests, i, mark)
    ensures Later(After(requests[..i]), requests[i].FloorMark()) == Some(mark) && mark.counter <= 4095
  {
    BaseIsTheLatestToPass(requests, i);
    var base := Later(After(requests[..i]), requests[i].FloorMark());
    assert NotLater(mark, base.value) && NotLater(base.value, mark);
    AfterIsValid(requests[..i]);
    if requests[i].floor.Some? {
      MarkOfIsValid(requests[i].floor.value);
    }
  }

  /** With the clock past every mark to pass, an id reads back the clock and the low twelve bits of random bytes 6 and 7. */
  lemma NewMillisecond(requests: seq<Request>, i: nat)
    requires ValidRun(requests) && i < |requests| && Output(requests, i).Some?
    requires forall mark :: MustPass(requests, i, mark) ==> mark.millis < requests[i].clock
    ensures var random, id := requests[i].random, Output(requests, i).value;
            MarkOf(id) == Mark(requests[i].clock, (256 * random[6] as int + random[7]) % 4096)
  {
    CarriedMark(requests, i);
    PastEveryMark(requests, i);
  }

  /**
    Otherwise it reads back the latest mark to pass with its counter one up, or, the counter being
    full, the next millisecond and those random bits.
   */
  lemma SameMillisecond(requests: seq<Request>, i: nat, mark: Mark)
    requires ValidRun(requests) && i < |requests| && Output(requests, i).Some?
    requires LatestToPass(requests, i, mark) && requests[i].clock <= mark.millis
    ensures var random, id := requests[i].random, Output(requests, i).value;
            MarkOf(id) == if mark.counter < 4095 then Mark(mark.millis, mark.counter + 1)
                          else Mark(mark.millis + 1, (256 * random[6] as int + random[7]) % 4096)
  {
    CarriedMark(requests, i);
    BaseIsThatMark(requests, i, mark);
  }

  /** In every run, an id minted over a floor of version 8 or lower exceeds that floor. */
  lemma SuccessExceedsItsFloor(requests: seq<Request>, i: nat)
    requires ValidRun(requests) && i < |requests|
    requires Output(requests, i).Some? && requests[i].floor.Some?
    requires VersionNibble(requests[i].floor.value) <= 8
    ensures Less(requests[i].floor.value, Output(requests, i).value)
  {
    AfterIsValid(requests[..i]);
    MintExceedsFloor(After(requests[..i]), requests[i]);
  }

  /** The largest clock or floor timestamp a run has seen. */
  function LatestSeen(requests: seq<Request>): nat
    requires ValidRun(requests)
  {
    if requests == [] then 0
    else
      var last := requests[|requests| - 1];
      var here := if last.floor.Some? && Timestamp(last.floor.value) > last.clock
                  then Timestamp(last.floor.value) else last.clock;
      var before := LatestSeen(requests[..|requests| - 1]);
      if before > here then before else here
  }

  lemma {:induction false} DriftOfTheMark(requests: seq<Request>)
    requires ValidRun(requests)
    ensures After(requests).Some? ==> After(requests).value.millis <= LatestSeen(requests) + |requests|
  {
    if requests != [] {
      var n := |requests| - 1;
      DriftOfTheMark(requests[..n]);
      AfterIsValid(requests[..n]);
      if requests[n].floor.Some? {
        MarkOfIsValid(requests[n].floor.value);
      }
    }
  }

  /** A minted timestamp is at least its clock and runs ahead of all clocks and floors by at most one per mint. */
  lemma TimestampBounds(requests: seq<Request>, i: nat)
    requires ValidRun(requests) && i < |requests| && Output(requests, i).Some?
    ensures requests[i].clock <= Timestamp(Output(requests, i).value) <= LatestSeen(requests[..i + 1]) + i + 1
    ensures StoreNumber(Output(requests, i).value) == requests[i].store
    ensures VersionNibble(Output(requests, i).value) == 8
  {
    var before := requests[..i];
    var next := NextMark(After(before), requests[i]);
    AfterIsValid(before);
    NextMarkMovesPast(After(before), requests[i]);
    LayoutReadsBack(next, requests[i]);
    var upto := requests[..i + 1];
    assert upto[..i] == before && upto[i] == requests[i];
    DriftOfTheMark(upto);
  }
}
