// Decompression of a domain name in wire format (fuzz/old.c).
//
// The message is a sequence of octets. A name is a run of labels, each with a
// length octet below 64, ended by the zero label or continued by a two-octet
// pointer (section 4.1.4 of RFC 1035).
module WireName {
  import opened Base

  type Label = l: seq<byte> | |l| < 64

  const MAXWIRE := 255   // DNS_NAME_MAXWIRE
  const MAXLABELS := 128 // DNS_NAME_MAXLABELS, the size of an offset table

  datatype Code = Success | UnexpectedEnd | BadLabelType | Disallowed | BadPointer | NameTooLong | NoSpace

  // What a decoder is told: whether pointers are allowed and whether to fold case.
  datatype Options = Options(permitted: bool, downcase: bool)

  // The labels of the name, root label left out, and the position just after
  // the part of the name that stands at its start (pointers are not followed).
  datatype Decoded = Name(labels: seq<Label>, end: nat) | Error(code: Code)

  // ---------------------------------------------------------------- meaning

  function ToLower(c: byte): byte {
    if 65 <= c <= 90 then c + 32 else c
  }

  function FoldOctet(o: Options, c: byte): byte {
    if o.downcase then ToLower(c) else c
  }

  function Fold(o: Options, l: seq<byte>): (r: seq<byte>)
    ensures |r| == |l|
  {
    seq(|l|, i requires 0 <= i < |l| => FoldOctet(o, l[i]))
  }

  predicate IsUpper(c: byte) {
    'A' as int <= c <= 'Z' as int
  }

  // Folding takes each capital to the small letter at its place in the alphabet,
  // leaves all other octets alone and need not be repeated.
  lemma FoldIs(o: Options, l: seq<byte>)
    ensures forall i :: 0 <= i < |l| && o.downcase && IsUpper(l[i]) ==> Fold(o, l)[i] - 'a' as int == l[i] - 'A' as int
    ensures forall i :: 0 <= i < |l| && !(o.downcase && IsUpper(l[i])) ==> Fold(o, l)[i] == l[i]
    ensures Fold(o, Fold(o, l)) == Fold(o, l)
  {
    assert forall i :: 0 <= i < |l| ==> Fold(o, Fold(o, l))[i] == Fold(o, l)[i];
  }

  function Prepend(ls: seq<Label>, d: Decoded): Decoded {
    match d
    case Name(labels, end) => Name(ls + labels, end)
    case Error(_) => d
  }

  // A name reached through a pointer ends, for its reader, at the pointer.
  function EndAt(end: nat, d: Decoded): Decoded {
    match d
    case Name(labels, _) => Name(labels, end)
    case Error(_) => d
  }

  function PointerTarget(c: byte, low: byte): nat
    requires c >= 192
  {
    (c - 192) * 256 + low
  }

  // What stands at one position of a message.
  datatype Item = Bad(code: Code) | Root | Text(text: Label) | Jump(target: nat)

  // The item at pos, when pointers must lead below limit and at most room
  // octets may be produced; full is reported when room does not suffice.
  function ItemAt(m: seq<byte>, pos: nat, limit: nat, room: nat, o: Options, full: Code): (i: Item)
    ensures i.Text? ==> i.text != [] && |i.text| < room && pos + 1 + |i.text| <= |m|
    ensures i.Jump? ==> i.target < limit && pos + 2 <= |m|
    ensures i.Root? ==> room > 0 && pos < |m|
  {
    if pos >= |m| then Bad(UnexpectedEnd)
    else
      var c := m[pos];
      if c < 64 then
        if c + 1 > room then Bad(full)
        else if c == 0 then Root
        else if pos + 1 + c > |m| then Bad(UnexpectedEnd)
        else Text(Fold(o, m[pos + 1..pos + 1 + c]))
      else if c < 192 then Bad(BadLabelType)
      else if !o.permitted then Bad(Disallowed)
      else if pos + 1 >= |m| then Bad(UnexpectedEnd)
      else
        var target := PointerTarget(c, m[pos + 1]);
        if target >= limit then Bad(BadPointer) else Jump(target)
  }

  // The name at pos.
  function Decode(m: seq<byte>, pos: nat, limit: nat, room: nat, o: Options, full: Code): Decoded
    requires limit <= |m|
    decreases limit, |m| - pos
  {
    match ItemAt(m, pos, limit, room, o, full)
    case Bad(code) => Error(code)
    case Root => Name([], pos + 1)
    case Text(l) => Prepend([l], Decode(m, pos + 1 + |l|, limit, room - 1 - |l|, o, full))
    case Jump(t) => EndAt(pos + 2, Decode(m, t, t, room, o, full))
  }

  // The number of octets that the labels take.
  function Length(ls: seq<Label>): nat {
    if ls == [] then 0 else 1 + |ls[0]| + Length(ls[1..])
  }

  // The labels in wire format, without and with the final root label.
  function WireLabel(l: Label): seq<byte> {
    [|l|] + l
  }

  function WireLabels(ls: seq<Label>): (w: seq<byte>)
    ensures |w| == Length(ls)
  {
    if ls == [] then [] else WireLabel(ls[0]) + WireLabels(ls[1..])
  }

  function Wire(ls: seq<Label>): seq<byte> {
    WireLabels(ls) + [0]
  }

  // Labels other than the root label are not empty.
  ghost predicate Proper(ls: seq<Label>) {
    forall i :: 0 <= i < |ls| ==> ls[i] != []
  }

  lemma {:induction false} WireConcat(a: seq<Label>, b: seq<Label>)
    ensures WireLabels(a + b) == WireLabels(a) + WireLabels(b)
  {
    if a == [] {
      assert a + b == b;
    } else {
      TailOfConcat(a, b);
      WireConcat(a[1..], b);
      ConcatAssoc(WireLabel(a[0]), WireLabels(a[1..]), WireLabels(b));
    }
  }

  lemma LengthCons(l: Label, ls: seq<Label>)
    ensures Length([l] + ls) == 1 + |l| + Length(ls)
    ensures l != [] && Proper(ls) ==> Proper([l] + ls)
  {
    TailOfConcat([l], ls);
    ConcatEmpty(ls);
  }

  lemma WireSnoc(a: seq<Label>, l: Label)
    ensures WireLabels(a + [l]) == WireLabels(a) + [|l|] + l
  {
    WireConcat(a, [l]);
    assert [l][1..] == [];
    ConcatEmpty(WireLabel(l));
    ConcatAssoc(WireLabels(a), [|l|], l);
  }

  lemma {:induction false} WireAtLeast(ls: seq<Label>)
    requires Proper(ls)
    ensures Length(ls) >= 2 * |ls|
  {
    if ls != [] {
      WireAtLeast(ls[1..]);
    }
  }

  // A decoded name takes at least one octet of the message and ends within it.
  lemma {:induction false} DecodeEnd(m: seq<byte>, pos: nat, limit: nat, room: nat, o: Options, full: Code)
    requires limit <= |m|
    ensures var d := Decode(m, pos, limit, room, o, full);
            d.Name? ==> pos < d.end <= |m|
    decreases limit, |m| - pos
  {
    hide ItemAt;
    match ItemAt(m, pos, limit, room, o, full)
    case Text(l) => DecodeEnd(m, pos + 1 + |l|, limit, room - 1 - |l|, o, full);
    case _ =>
  }

  // ------------------------------------------------- what decoding means

  // Every decoded name is well formed and fits the room it was given.
  lemma {:induction false} DecodeSound(m: seq<byte>, pos: nat, limit: nat, room: nat, o: Options, full: Code)
    requires limit <= |m|
    ensures var d := Decode(m, pos, limit, room, o, full);
            d.Name? ==> Proper(d.labels) && Length(d.labels) < room
    decreases limit, |m| - pos
  {
    hide ItemAt;
    match ItemAt(m, pos, limit, room, o, full)
    case Text(l) =>
      DecodeSound(m, pos + 1 + |l|, limit, room - 1 - |l|, o, full);
      var rest := Decode(m, pos + 1 + |l|, limit, room - 1 - |l|, o, full);
      if rest.Name? {
        LengthCons(l, rest.labels);
      }
    case Jump(t) => DecodeSound(m, t, t, room, o, full);
    case _ =>
  }

  // The octets that a label at pos takes, whether or not all of it is there.
  function Claim(m: seq<byte>, pos: nat): nat {
    if pos < |m| && m[pos] < 64 then m[pos] + 1 else 0
  }

  // The item at pos when there is room for it.
  function FreeItem(m: seq<byte>, pos: nat, limit: nat, o: Options): (i: Item)
    ensures i.Text? ==> i.text != [] && pos + 1 + |i.text| <= |m|
    ensures i.Jump? ==> i.target < limit
  {
    ItemAt(m, pos, limit, 64, o, Success)
  }

  // The room decides between the item and full.
  lemma ItemRoom(m: seq<byte>, pos: nat, limit: nat, room: nat, o: Options, full: Code)
    ensures var i := FreeItem(m, pos, limit, o);
            && ItemAt(m, pos, limit, room, o, full) == (if Claim(m, pos) > room then Bad(full) else i)
            && (i.Text? ==> Claim(m, pos) == |i.text| + 1) && (i.Root? ==> Claim(m, pos) == 1) && (i.Jump? ==> Claim(m, pos) == 0)
  {
  }

  // The octets that decoding the name at pos takes, until the name is complete or
  // an error is met.
  function Needed(m: seq<byte>, pos: nat, limit: nat, o: Options): nat
    requires limit <= |m|
    decreases limit, |m| - pos
  {
    Claim(m, pos) +
    match FreeItem(m, pos, limit, o)
    case Text(l) => Needed(m, pos + 1 + |l|, limit, o)
    case Jump(t) => Needed(m, t, t, o)
    case _ => 0
  }

  // With less room than that the outcome is full; with as much, it does not
  // depend on the room.
  lemma {:induction false} LessRoom(m: seq<byte>, pos: nat, limit: nat, room: nat, more: nat, o: Options, full: Code)
    requires limit <= |m|
    ensures var n := Needed(m, pos, limit, o);
            && (n > room ==> Decode(m, pos, limit, room, o, full) == Error(full))
            && (n <= room && n <= more ==> Decode(m, pos, limit, room, o, full) == Decode(m, pos, limit, more, o, full))
    decreases limit, |m| - pos
  {
    ItemRoom(m, pos, limit, room, o, full);
    ItemRoom(m, pos, limit, more, o, full);
    hide ItemAt, FreeItem, Claim;
    match FreeItem(m, pos, limit, o)
    case Text(l) =>
      if |l| < room {
        LessRoom(m, pos + 1 + |l|, limit, room - 1 - |l|, if |l| < more then more - 1 - |l| else 0, o, full);
      }
    case Jump(t) =>
      LessRoom(m, t, t, room, more, o, full);
    case _ =>
  }

  // A name needs the octets of its wire form.
  lemma {:induction false} NameNeeds(m: seq<byte>, pos: nat, limit: nat, room: nat, o: Options, full: Code)
    requires limit <= |m|
    ensures var d := Decode(m, pos, limit, room, o, full);
            d.Name? ==> Needed(m, pos, limit, o) == Length(d.labels) + 1 <= room
    decreases limit, |m| - pos
  {
    ItemRoom(m, pos, limit, room, o, full);
    EmptyLength();
    hide ItemAt, FreeItem, Claim, Length;
    match ItemAt(m, pos, limit, room, o, full)
    case Text(l) =>
      NameNeeds(m, pos + 1 + |l|, limit, room - 1 - |l|, o, full);
      var rest := Decode(m, pos + 1 + |l|, limit, room - 1 - |l|, o, full);
      if rest.Name? {
        LengthCons(l, rest.labels);
      }
    case Jump(t) =>
      NameNeeds(m, t, t, room, o, full);
    case _ =>
  }

  lemma EmptyLength()
    ensures Length([]) == 0
  {
  }

  function FoldAll(o: Options, ls: seq<Label>): seq<Label> {
    if ls == [] then [] else [Fold(o, ls[0])] + FoldAll(o, ls[1..])
  }

  // The octets w stand in m at pos.
  ghost predicate At(m: seq<byte>, pos: nat, w: seq<byte>) {
    pos + |w| <= |m| && m[pos..pos + |w|] == w
  }

  lemma AtConcat(m: seq<byte>, pos: nat, a: seq<byte>, b: seq<byte>)
    requires At(m, pos, a + b)
    ensures At(m, pos, a) && At(m, pos + |a|, b)
  {
    assert m[pos..pos + |a|] == (a + b)[..|a|];
    assert m[pos + |a|..pos + |a| + |b|] == (a + b)[|a|..];
  }

  // The item that a length octet and a label make.
  lemma ItemText(m: seq<byte>, pos: nat, limit: nat, room: nat, o: Options, full: Code, l: Label)
    requires l != [] && At(m, pos, WireLabel(l))
    ensures ItemAt(m, pos, limit, room, o, full) == if |l| < room then Text(Fold(o, l)) else Bad(full)
  {
    AtConcat(m, pos, [|l|], l);
    assert m[pos] == [|l|][0];
  }

  lemma PrependTwice(a: seq<Label>, b: seq<Label>, d: Decoded)
    ensures Prepend(a, Prepend(b, d)) == Prepend(a + b, d) && Prepend([], d) == d
  {
    if d.Name? {
      ConcatAssoc(a, b, d.labels);
      ConcatEmpty(d.labels);
    }
  }

  lemma FoldNone(o: Options)
    ensures FoldAll(o, []) == []
  {
  }

  // The first of several labels in the message.
  lemma FirstLabel(m: seq<byte>, pos: nat, limit: nat, room: nat, o: Options, full: Code, ls: seq<Label>)
    requires limit <= |m| && Proper(ls) && ls != [] && At(m, pos, WireLabels(ls))
    ensures var l, rest := ls[0], ls[1..];
            && l != [] && Proper(rest) && At(m, pos + 1 + |l|, WireLabels(rest)) && FoldAll(o, ls) == [Fold(o, l)] + FoldAll(o, rest)
            && Decode(m, pos, limit, room, o, full) ==
               if |l| < room then Prepend([Fold(o, l)], Decode(m, pos + 1 + |l|, limit, room - 1 - |l|, o, full)) else Error(full)
  {
    hide ItemAt, At, Prepend, Fold;
    AtConcat(m, pos, WireLabel(ls[0]), WireLabels(ls[1..]));
    ItemText(m, pos, limit, room, o, full, ls[0]);
  }

  // Labels that stand in the message are decoded first, whatever follows them.
  lemma {:induction false} LabelsFirst(m: seq<byte>, pos: nat, limit: nat, room: nat, o: Options, full: Code, ls: seq<Label>)
    requires limit <= |m| && Proper(ls) && At(m, pos, WireLabels(ls))
    ensures var w := Length(ls);
            Decode(m, pos, limit, room, o, full) ==
            if w > room then Error(full)
            else Prepend(FoldAll(o, ls), Decode(m, pos + w, limit, room - w, o, full))
    decreases |ls|
  {
    hide ItemAt, At, Prepend, Fold, Decode, FoldAll, WireLabels, Proper;
    var w := Length(ls);
    if ls == [] {
      FoldNone(o);
      PrependTwice([], [], Decode(m, pos, limit, room, o, full));
    } else {
      var l, rest := ls[0], ls[1..];
      FirstLabel(m, pos, limit, room, o, full, ls);
      if |l| < room {
        LabelsFirst(m, pos + 1 + |l|, limit, room - 1 - |l|, o, full, rest);
        if w <= room {
          PrependTwice([Fold(o, l)], FoldAll(o, rest), Decode(m, pos + w, limit, room - w, o, full));
        } else {
          assert Prepend([Fold(o, l)], Error(full)) == Error(full) by {
            PrependError([Fold(o, l)], full);
          }
        }
      }
    }
  }

  lemma PrependError(ls: seq<Label>, code: Code)
    ensures Prepend(ls, Error(code)) == Error(code)
  {
  }

  // A name written without compression is read back, if there is room for it.
  lemma RoundTrip(m: seq<byte>, pos: nat, limit: nat, room: nat, o: Options, full: Code, ls: seq<Label>)
    requires limit <= |m| && Proper(ls) && At(m, pos, Wire(ls))
    ensures Decode(m, pos, limit, room, o, full) ==
            if |Wire(ls)| <= room then Name(FoldAll(o, ls), pos + |Wire(ls)|) else Error(full)
  {
    AtConcat(m, pos, WireLabels(ls), [0]);
    LabelsFirst(m, pos, limit, room, o, full, ls);
    ConcatEmpty(FoldAll(o, ls));
    var w := Length(ls);
    assert m[pos + w] == [0][0];
  }

  function Pointer(p: nat): seq<byte>
    requires p < 0x4000
  {
    [192 + p / 256, p % 256]
  }

  // The item that a pointer makes.
  lemma ItemPointer(m: seq<byte>, pos: nat, limit: nat, room: nat, o: Options, full: Code, p: nat)
    requires o.permitted && p < 0x4000 && At(m, pos, Pointer(p))
    ensures ItemAt(m, pos, limit, room, o, full) == if p < limit then Jump(p) else Bad(BadPointer)
  {
    assert m[pos] == Pointer(p)[0] && m[pos + 1] == Pointer(p)[1];
  }

  // Labels followed by a pointer mean the labels followed by the name the
  // pointer leads to. That holds exactly when the pointer leads below the
  // start of the name and the whole fits.
  lemma Compression(m: seq<byte>, start: nat, room: nat, o: Options, full: Code, ls: seq<Label>, p: nat, tail: seq<Label>, e: nat)
    requires o.permitted && start <= |m| && p < 0x4000 && p < |m| && Proper(ls) && room <= MAXWIRE
    requires At(m, start, WireLabels(ls) + Pointer(p))
    requires Decode(m, p, p, MAXWIRE, o, full) == Name(tail, e)
    ensures var d := Decode(m, start, start, room, o, full);
            var w := Length(ls);
            if w > room then d == Error(full)
            else if p >= start then d == Error(BadPointer)
            else if w + |Wire(tail)| > room then d == Error(full)
            else d == Name(FoldAll(o, ls) + tail, start + w + 2)
  {
    hide ItemAt, At, Length, FoldAll, WireLabels, Proper;
    AtConcat(m, start, WireLabels(ls), Pointer(p));
    LabelsFirst(m, start, start, room, o, full, ls);
    var w := Length(ls);
    if w <= room {
      ItemPointer(m, start + w, start, room - w, o, full, p);
      if p < start {
        NameNeeds(m, p, p, MAXWIRE, o, full);
        LessRoom(m, p, p, room - w, MAXWIRE, o, full);
      }
    }
  }

  // ------------------------------------------------- the reader's progress

  datatype State = Start | Ordinary | NewCurrent

  // What a reader has done of the decoding spec of message m: it has taken the
  // labels in acc, is at a label or pointer that starts at p, has written out
  // and recorded the offsets offs.
  datatype Job = Job(m: seq<byte>, o: Options, full: Code, room: nat, spec: Decoded)
  datatype Done = Done(acc: seq<Label>, p: nat, out: seq<byte>, offs: seq<byte>)

  // The reader's own variables: where pointers must stay below (biggest_pointer),
  // whether one was met, the position after the part read in place, the octets
  // of the label still to copy, and the octets reserved in the target.
  datatype Reader = Reader(state: State, current: nat, limit: nat, seen: bool, end: nat, n: nat, nused: nat, high: nat)

  // What is still to be decoded at position p.
  ghost function Rest(j: Job, d: Done, r: Reader): Decoded
    requires r.limit <= |j.m| && Length(d.acc) <= j.room
  {
    var rest := Decode(j.m, d.p, r.limit, j.room - Length(d.acc), j.o, j.full);
    if r.seen then EndAt(r.end, rest) else rest
  }

  ghost predicate Progress(j: Job, d: Done, r: Reader) {
    && j.room <= MAXWIRE && r.limit <= |j.m| && Proper(d.acc) && Length(d.acc) <= r.nused <= j.room
    && d.p <= r.current <= |j.m| && r.end <= |j.m|
    && j.spec == Prepend(d.acc, Rest(j, d, r))
    && (!r.seen ==> r.end == r.current)
    && Offsets(d.offs, d.acc)
    && match r.state
       case Start => r.current == d.p && Clean(d, r)
       case NewCurrent =>
         r.current == d.p + 1 && Clean(d, r) && j.o.permitted && j.m[d.p] >= 192 && r.high == j.m[d.p] - 192
       case Ordinary => InLabel(j, d, r)
  }

  ghost predicate Clean(d: Done, r: Reader) {
    |d.offs| == |d.acc| && r.nused == |d.out| && d.out == WireLabels(d.acc)
  }

  ghost predicate InLabel(j: Job, d: Done, r: Reader) {
    && |d.offs| == |d.acc| + 1
    && d.p < |j.m| && 0 < r.n <= j.m[d.p] < 64 && r.current == d.p + 1 + (j.m[d.p] - r.n) <= |j.m|
    && r.nused == Length(d.acc) + j.m[d.p] + 1
    && d.out == WireLabels(d.acc) + [j.m[d.p]] + Fold(j.o, j.m[d.p + 1..r.current])
  }

  // The offset table: where each label starts in the wire format.
  ghost predicate Offsets(offs: seq<byte>, ls: seq<Label>) {
    |offs| <= |ls| + 1 && forall k :: 0 <= k < |offs| ==> offs[k] == Length(ls[..k])
  }

  lemma OffsetsGrow(offs: seq<byte>, ls: seq<Label>, l: Label)
    requires Offsets(offs, ls)
    ensures Offsets(offs, ls + [l])
  {
    forall k | 0 <= k < |offs|
      ensures offs[k] == Length((ls + [l])[..k])
    {
      assert (ls + [l])[..k] == ls[..k];
    }
  }

  // The label at p is complete.
  lemma TakeLabel(j: Job, d: Done, r: Reader, d': Done, r': Reader, l: Label)
    requires Progress(j, d, r) && d.p < |j.m| && 0 < j.m[d.p] < 64 && d.p + 1 + j.m[d.p] <= |j.m|
    requires Length(d.acc) + j.m[d.p] + 1 <= j.room
    requires l == Fold(j.o, j.m[d.p + 1..d.p + 1 + j.m[d.p]])
    requires d'.acc == d.acc + [l] && d'.p == d.p + 1 + j.m[d.p]
    requires r'.limit == r.limit && r'.seen == r.seen && (r.seen ==> r'.end == r.end)
    ensures WireLabels(d'.acc) == WireLabels(d.acc) + [j.m[d.p]] + l
    ensures Length(d'.acc) <= j.room && j.spec == Prepend(d'.acc, Rest(j, d', r'))
  {
    hide Decode, WireLabels, Fold, Prepend, EndAt, Length;
    WireSnoc(d.acc, l);
    var room := j.room - Length(d.acc);
    DecodeText(j.m, d.p, r.limit, room, j.o, j.full, l);
    EndPrepend(r.end, [l], Decode(j.m, d'.p, r.limit, room - 1 - |l|, j.o, j.full));
    PrependTwice(d.acc, [l], Rest(j, d', r'));
  }

  // A complete label is decoded first.
  lemma DecodeText(m: seq<byte>, pos: nat, limit: nat, room: nat, o: Options, full: Code, l: Label)
    requires limit <= |m| && pos < |m| && 0 < m[pos] < 64 && pos + 1 + m[pos] <= |m| && m[pos] < room
    requires l == Fold(o, m[pos + 1..pos + 1 + m[pos]])
    ensures Decode(m, pos, limit, room, o, full) == Prepend([l], Decode(m, pos + 1 + |l|, limit, room - 1 - |l|, o, full))
  {
    hide Prepend, Fold;
  }

  lemma EndPrepend(end: nat, ls: seq<Label>, d: Decoded)
    ensures EndAt(end, Prepend(ls, d)) == Prepend(ls, EndAt(end, d))
  {
  }

  // The whole name has been read.
  ghost predicate Finished(j: Job, d: Done, nused: nat, end: nat) {
    && j.spec == Name(d.acc, end) && end <= |j.m|
    && d.out == Wire(d.acc) && nused == |d.out| <= j.room
    && |d.offs| == |d.acc| + 1 && Offsets(d.offs, d.acc)
  }

  lemma ReadStart(j: Job, d: Done, r: Reader)
    requires r.current <= |j.m| && j.room <= MAXWIRE
    requires j.spec == Decode(j.m, r.current, r.current, j.room, j.o, j.full)
    requires d == Done([], r.current, [], [])
    requires r == Reader(Start, r.current, r.current, false, r.current, 0, 0, 0)
    ensures Progress(j, d, r)
  {
    var rest := Rest(j, d, r);
    if rest.Name? {
      ConcatEmpty(rest.labels);
    }
  }

  // The reader's position after it takes one octet.
  function Advance(r: Reader): Reader {
    r.(current := r.current + 1, end := if r.seen then r.end else r.end + 1)
  }

  // A length octet: the name is too long, is complete, or a label begins.
  lemma ReadLength(j: Job, d: Done, r: Reader)
    requires Progress(j, d, r) && r.state == Start && r.current < |j.m| && j.m[r.current] < 64
    ensures |d.acc| < MAXLABELS
    ensures var c := j.m[r.current];
            var d' := d.(out := d.out + [c], offs := d.offs + [r.nused]);
            if r.nused + c + 1 > j.room then j.spec == Error(j.full)
            else if c == 0 then Finished(j, d', r.nused + 1, Advance(r).end)
            else Progress(j, d', Advance(r).(state := Ordinary, n := c, nused := r.nused + c + 1))
  {
    WireAtLeast(d.acc);
    assert d.acc == d.acc[..|d.acc|];
    assert j.m[d.p + 1..d.p + 1] == [];
  }

  // An octet of a label: the label goes on or is complete.
  lemma ReadOctet(j: Job, d: Done, r: Reader) returns (l: Label)
    requires Progress(j, d, r) && r.state == Ordinary && r.current < |j.m|
    ensures var d' := d.(out := d.out + [FoldOctet(j.o, j.m[r.current])]);
            if r.n > 1 then Progress(j, d', Advance(r).(n := r.n - 1))
            else Progress(j, d'.(acc := d.acc + [l], p := r.current + 1), Advance(r).(n := 0, state := Start))
  {
    hide Decode, WireLabels, Length, Prepend, EndAt, Offsets;
    var c, m, o := r.current, j.m, j.o;
    var d' := d.(out := d.out + [FoldOctet(o, m[c])]);
    l := [];
    assert Fold(o, m[d.p + 1..c + 1]) == Fold(o, m[d.p + 1..c]) + [FoldOctet(o, m[c])];
    ConcatAssoc(WireLabels(d.acc) + [m[d.p]], Fold(o, m[d.p + 1..c]), [FoldOctet(o, m[c])]);
    if r.n == 1 {
      l := Fold(o, m[d.p + 1..c + 1]);
      var r' := Advance(r).(n := 0, state := Start);
      TakeLabel(j, d, r, d'.(acc := d.acc + [l], p := c + 1), r', l);
      OffsetsGrow(d.offs, d.acc, l);
    }
  }

  // Nothing left to read.
  lemma ReadEnd(j: Job, d: Done, r: Reader)
    requires Progress(j, d, r) && r.current >= |j.m|
    ensures j.spec == Error(UnexpectedEnd)
  {
  }

  // ---------------------------------------------------------- the decoder

  // The message being read; only octets below active may be looked at.
  class Source {
    const base: seq<byte>
    var current: nat
    var active: nat

    ghost predicate Valid()
      reads this
    {
      current <= active <= |base|
    }

    constructor (base: seq<byte>)
      ensures Valid() && this.base == base && current == 0 && active == |base|
    {
      this.base := base;
      current, active := 0, |base|;
    }
  }

  class Target {
    const base: array<byte>
    var used: nat

    ghost predicate Valid()
      reads this
    {
      used <= base.Length
    }

    constructor (base: array<byte>)
      ensures Valid() && this.base == base && used == 0
    {
      this.base := base;
      used := 0;
    }
  }

  class NameRef {
    var start: nat
    var length: nat
    var labels: nat
    var absolute: bool

    constructor ()
      ensures length == labels == 0 && !absolute
    {
      start, length, labels, absolute := 0, 0, 0, false;
    }
  }

  // Appends one octet at position i; out is what stands from position lo.
  method Put(a: array<byte>, lo: nat, i: nat, c: byte, ghost out: seq<byte>)
    requires lo <= i < a.Length && a[lo..i] == out
    modifies a
    ensures a[lo..i + 1] == out + [c]
    ensures forall k :: 0 <= k < lo || i < k < a.Length ==> a[k] == old(a[k])
  {
    a[i] := c;
    assert a[lo..i + 1] == a[lo..i] + [c];
  }

  function Room(available: nat): nat {
    if available > MAXWIRE then MAXWIRE else available
  }

  function FullCode(room: nat): Code {
    if room == MAXWIRE then NameTooLong else NoSpace
  }

  // How a full target is told from a name that is too long: with at least 255
  // octets left the name is, with less it is the target that lacks space.
  ghost predicate Outgrown(code: Code, needed: nat, available: nat) {
    && (code == NameTooLong <==> available >= MAXWIRE && needed > MAXWIRE)
    && (code == NoSpace <==> available < MAXWIRE && needed > available)
  }

  lemma {:induction false} EnoughRoom(m: seq<byte>, pos: nat, limit: nat, room: nat, o: Options, full: Code)
    requires limit <= |m| && Needed(m, pos, limit, o) <= room
    ensures var d := Decode(m, pos, limit, room, o, full);
            d.Error? ==> d.code != NameTooLong && d.code != NoSpace
    decreases limit, |m| - pos
  {
    ItemRoom(m, pos, limit, room, o, full);
    BadItems(m, pos, limit, o);
    hide ItemAt, FreeItem, Claim;
    match FreeItem(m, pos, limit, o)
    case Text(l) => EnoughRoom(m, pos + 1 + |l|, limit, room - 1 - |l|, o, full);
    case Jump(t) => EnoughRoom(m, t, t, room, o, full);
    case _ =>
  }

  lemma BadItems(m: seq<byte>, pos: nat, limit: nat, o: Options)
    ensures FreeItem(m, pos, limit, o) != Bad(NameTooLong) && FreeItem(m, pos, limit, o) != Bad(NoSpace)
  {
  }

  lemma OutgrownExactly(m: seq<byte>, pos: nat, available: nat, o: Options)
    requires pos <= |m|
    ensures var room := Room(available);
            var d := Decode(m, pos, pos, room, o, FullCode(room));
            Outgrown(if d.Error? then d.code else Success, Needed(m, pos, pos, o), available)
  {
    hide Decode, Needed;
    var room := Room(available);
    LessRoom(m, pos, pos, room, room, o, FullCode(room));
    if Needed(m, pos, pos, o) <= room {
      EnoughRoom(m, pos, pos, room, o, FullCode(room));
    }
  }

  ghost function TheJob(m: seq<byte>, start: nat, o: Options, room: nat): Job
    requires start <= |m|
  {
    Job(m, o, FullCode(room), room, Decode(m, start, start, room, o, FullCode(room)))
  }

  // The octets written and the offsets recorded are in memory.
  ghost predicate Holds(target: array<byte>, lo: nat, offsets: array<byte>, d: Done)
    reads target, offsets
  {
    && lo + |d.out| <= target.Length && target[lo..lo + |d.out|] == d.out
    && |d.offs| <= offsets.Length && offsets[0..|d.offs|] == d.offs
  }

  // The octets outside the nmax octets from lo on are as they were.
  twostate predicate Framed(target: array<byte>, lo: nat, nmax: nat)
    reads target
  {
    forall k :: 0 <= k < target.Length && !(lo <= k < lo + nmax) ==> target[k] == old(target[k])
  }

  // A length octet c.
  method StartLabel(r: Reader, c: byte, target: array<byte>, lo: nat, nmax: nat, offsets: array<byte>,
                    ghost j: Job, ghost d: Done, ndata: nat, labels: nat)
    returns (full: bool, done: bool, r': Reader, ghost d': Done)
    requires Progress(j, d, r) && r.state == Start && r.current < |j.m| && c == j.m[r.current] < 64 && j.room == nmax
    requires offsets != target && offsets.Length == MAXLABELS && lo + nmax <= target.Length
    requires Holds(target, lo, offsets, d) && ndata == lo + |d.out| && labels == |d.offs|
    modifies target, offsets
    ensures full ==> j.spec == Error(j.full)
    ensures !full ==> Holds(target, lo, offsets, d') && |d'.out| == |d.out| + 1 && |d'.offs| == |d.offs| + 1
    ensures !full && done ==> Finished(j, d', r'.nused, r'.end)
    ensures !full && !done ==> Progress(j, d', r')
    ensures r'.limit == r.limit && r'.current == r.current + 1
    ensures Framed(target, lo, nmax)
  {
    hide Decode, ItemAt, WireLabels, Length;
    ReadLength(j, d, r);
    r', d', done, full := Advance(r), d, false, false;
    Put(offsets, 0, labels, r.nused, d.offs);
    if r.nused + c + 1 > nmax {
      full := true;
      return;
    }
    r' := r'.(nused := r.nused + c + 1);
    Put(target, lo, ndata, c, d.out);
    done := c == 0;
    r' := r'.(n := c, state := Ordinary);
    d' := d.(out := d.out + [c], offs := d.offs + [r.nused]);
  }

  // One octet c of a label.
  method CopyOctet(r: Reader, c: byte, target: array<byte>, lo: nat, nmax: nat, offsets: array<byte>,
                   ghost j: Job, ghost d: Done, ndata: nat, downcase: bool)
    returns (r': Reader, ghost d': Done)
    requires Progress(j, d, r) && r.state == Ordinary && r.current < |j.m| && c == j.m[r.current] && j.room == nmax
    requires downcase == j.o.downcase
    requires offsets != target && lo + nmax <= target.Length
    requires Holds(target, lo, offsets, d) && ndata == lo + |d.out|
    modifies target
    ensures Holds(target, lo, offsets, d') && |d'.out| == |d.out| + 1 && |d'.offs| == |d.offs|
    ensures Progress(j, d', r') && r'.limit == r.limit && r'.current == r.current + 1
    ensures Framed(target, lo, nmax)
  {
    hide Decode, Length, WireLabels;
    ghost var l := ReadOctet(j, d, r);
    var c' := if downcase then ToLower(c) else c;
    Put(target, lo, ndata, c', d.out);
    d' := d.(out := d.out + [c']);
    r' := Advance(r).(n := r.n - 1);
    if r'.n == 0 {
      r' := r'.(state := Start);
      d' := d'.(acc := d.acc + [l], p := r.current + 1);
    }
  }

  // An octet c that does not start a label.
  method StartPointer(r: Reader, c: byte, permitted: bool, ghost j: Job, ghost d: Done)
    returns (result: Code, r': Reader)
    requires Progress(j, d, r) && r.state == Start && r.current < |j.m| && 64 <= c == j.m[r.current]
    requires permitted == j.o.permitted
    ensures if result == Success then Progress(j, d, r') else j.spec == Error(result)
    ensures r'.limit == r.limit && r'.current == r.current + 1
  {
    result, r' := Success, Advance(r);
    if c >= 192 {
      if !permitted {
        result := Disallowed;
        return;
      }
      r' := r'.(high := c - 192, state := NewCurrent);
    } else {
      result := BadLabelType;
    }
  }

  // The second octet c of a pointer.
  method FollowPointer(r: Reader, c: byte, ghost j: Job, ghost d: Done)
    returns (result: Code, r': Reader, ghost d': Done)
    requires Progress(j, d, r) && r.state == NewCurrent && r.current < |j.m| && c == j.m[r.current]
    ensures if result == Success then Progress(j, d', r') && r'.limit < r.limit else j.spec == Error(result)
    ensures d'.out == d.out && d'.offs == d.offs
  {
    result, r', d' := Success, Advance(r).(high := r.high * 256 + c), d;
    if r'.high >= r.limit {
      result := BadPointer;
      return;
    }
    r' := r'.(limit := r'.high, current := r'.high, seen := true, state := Start);
    d' := d.(p := r'.current);
  }

  // The decoder's loop: copies the name at start of the active part m into
  // target from position lo, at most nmax octets of it.
  method ReadName(m: seq<byte>, start: nat, o: Options, target: array<byte>, lo: nat, nmax: nat, offsets: array<byte>)
    returns (result: Code, labels: nat, r: Reader, ghost d: Done)
    requires start <= |m| && lo + nmax <= target.Length && nmax <= MAXWIRE
    requires offsets != target && offsets.Length == MAXLABELS
    modifies target, offsets
    ensures result == Success ==>
              Finished(TheJob(m, start, o, nmax), d, r.nused, r.end) && Holds(target, lo, offsets, d) && labels == |d.offs|
    ensures result != Success ==> TheJob(m, start, o, nmax).spec == Error(result)
    ensures Framed(target, lo, nmax)
  {
    hide Progress, Finished, Decode;
    labels := 0;
    var done, ndata := false, lo;
    r := Reader(Start, start, start, false, start, 0, 0, 0);
    ghost var j := TheJob(m, start, o, nmax);
    d := Done([], start, [], []);
    ReadStart(j, d, r);

    while r.current < |m| && !done
      invariant Framed(target, lo, nmax) && Holds(target, lo, offsets, d)
      invariant ndata == lo + |d.out| && labels == |d.offs|
      invariant if done then Finished(j, d, r.nused, r.end) else Progress(j, d, r)
      decreases !done, r.limit, |m| - r.current
    {
      var c := m[r.current];
      match r.state {
        case Start =>
          if c < 64 {
            var full;
            full, done, r, d := StartLabel(r, c, target, lo, nmax, offsets, j, d, ndata, labels);
            if full {
              result := if nmax == MAXWIRE then NameTooLong else NoSpace;
              return;
            }
            ndata, labels := ndata + 1, labels + 1;
          } else {
            result, r := StartPointer(r, c, o.permitted, j, d);
            if result != Success {
              return;
            }
          }
        case Ordinary =>
          r, d := CopyOctet(r, c, target, lo, nmax, offsets, j, d, ndata, o.downcase);
          ndata := ndata + 1;
        case NewCurrent =>
          result, r, d := FollowPointer(r, c, j, d);
          if result != Success {
            return;
          }
      }
    }
    if !done {
      ReadEnd(j, d, r);
      result := UnexpectedEnd;
      return;
    }
    result := Success;
  }

  // Decodes the name at source.current into target, filling the offset table.
  method FromWire(name: NameRef, source: Source, o: Options, target: Target, offsets: array<byte>)
    returns (result: Code)
    requires source.Valid() && target.Valid()
    requires offsets != target.base && offsets.Length == MAXLABELS
    modifies name, source`current, target`used, target.base, offsets
    ensures source.active == old(source.active) && source.Valid() && target.Valid()
    ensures var room := Room(target.base.Length - old(target.used));
            match Decode(source.base[..source.active], old(source.current), old(source.current), room, o, FullCode(room))
            case Error(code) =>
              && result == code
              && source.current == old(source.current) && target.used == old(target.used)
              && name.length == 0 && name.labels == 0 && !name.absolute
            case Name(labels, end) =>
              && result == Success
              && source.current == end
              && target.used == old(target.used) + |Wire(labels)|
              && target.base[old(target.used)..target.used] == Wire(labels)
              && name.start == old(target.used) && name.length == |Wire(labels)|
              && name.labels == |labels| + 1 <= MAXLABELS && name.absolute
              && Offsets(offsets[..|labels| + 1], labels)
    ensures Framed(target.base, old(target.used), Room(target.base.Length - old(target.used)))
  {
    hide Decode, WireLabels, Length, Offsets, Proper, Fold, FullCode;
    name.start, name.length, name.labels, name.absolute := 0, 0, 0, false;
    var nmax := target.base.Length - target.used;
    if nmax > MAXWIRE {
      nmax := MAXWIRE;
    }
    var labels, r;
    ghost var d;
    result, labels, r, d := ReadName(source.base[..source.active], source.current, o, target.base, target.used, nmax, offsets);
    if result == Success {
      DecodeEnd(source.base[..source.active], source.current, source.current, nmax, o, FullCode(nmax));
      assert offsets[..|d.acc| + 1] == d.offs;
      assert target.base[target.used..target.used + r.nused] == Wire(d.acc);
      name.start, name.length, name.labels, name.absolute := target.used, r.nused, labels, true;
      source.current := r.end;
      target.used := target.used + r.nused;
    }
  }
}
