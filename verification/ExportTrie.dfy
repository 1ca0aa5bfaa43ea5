/**
  The walk over a serialized Mach-O export trie: ULEB128 numbers (section 7.6 of DWARF 5), nodes with
  an optional payload, and labelled edges to the offsets of other nodes.

  A byte string is an offset space from start (0) to end (its length). A read outside it, which the
  source does not check, is the outcome Unsafe; where the source walks in circles, over edges with empty
  labels, the outcome is Circles. A well-formed trie leads to neither.
 */
module ExportTrie {
  import opened Words

  // ----- ULEB128

  /** A number and where it ends. */
  datatype Number = Number(value: nat, next: nat)

  /** The ULEB128 number at p, of any size: seven bits a byte, the least first, until a byte below 128. */
  function Uleb(mem: seq<u8>, p: nat): (r: Option<Number>)
    ensures r.Some? ==> p < r.value.next <= |mem|
    decreases |mem| - p
  {
    if p >= |mem| then None
    else if mem[p] < 128 then Some(Number(mem[p], p + 1))
    else
      match Uleb(mem, p + 1)
      case None => None
      case Some(n) => Some(Number(mem[p] - 128 + 128 * n.value, n.next))
  }

  function Encode(n: nat): seq<u8>
  {
    if n < 128 then [n] else [n % 128 + 128] + Encode(n / 128)
  }

  /** The encoding of any number is read back, wherever it stands. */
  lemma {:induction false} UlebInvertsEncode(mem: seq<u8>, p: nat, n: nat)
    requires p + |Encode(n)| <= |mem| && mem[p..p + |Encode(n)|] == Encode(n)
    ensures Uleb(mem, p) == Some(Number(n, p + |Encode(n)|))
    decreases n
  {
    var e := Encode(n);
    assert mem[p] == mem[p..p + |e|][0];
    if n >= 128 {
      assert mem[p + 1..p + 1 + |Encode(n / 128)|] == e[1..];
      UlebInvertsEncode(mem, p + 1, n / 128);
    }
  }

  /** Or-ing in bits above those of a adds them. */
  lemma {:induction false} OrIsSum(a: nat, b: nat, k: nat)
    requires a < Pow2(k) && b % Pow2(k) == 0
    ensures Or(a, b) == a + b
    decreases k
  {
    if k == 0 {
      OrZero(b);
    } else if a != 0 || b != 0 {
      var h := Pow2(k - 1);
      var q := b / (2 * h);
      assert b == 2 * (q * h) && b / 2 == q * h;
      MultipleMod(q, h);
      OrIsSum(a / 2, b / 2, k - 1);
    }
  }

  /** A multiple of h, divided by h * g. */
  lemma Scaled(s: nat, h: nat, g: nat)
    requires h > 0 && g > 0
    ensures s * h == s / g * (h * g) + s % g * h && s % g * h + h <= h * g
  {
    ScaledParts(s / g, s % g, h, g);
  }

  lemma ScaledParts(q: nat, r: nat, h: nat, g: nat)
    requires r < g
    ensures (q * g + r) * h == q * (h * g) + r * h && r * h + h <= h * g
  {
    Regroup(q, r, h, g);
    MulMonotone(r + 1, g, h);
    Distribute(r, -1, h);
  }

  /** The slice at a bit position. */
  function Shifted(slice: nat, bit: nat): nat { slice * Pow2(bit) }

  /** One step of the loop, below bit 64: seven more bits, cut off at 64. */
  lemma SliceOred(prefix: nat, slice: nat, bit: nat)
    requires bit <= 63 && prefix < Pow2(bit) && slice < 128
    ensures Or(prefix, Shifted(slice, bit) % TWO64) == (prefix + Shifted(slice, bit)) % TWO64
  {
    hide Pow2, Or;
    var h, g := Pow2(bit), Pow2(64 - bit);
    Pow2Sum(bit, 64 - bit);
    Pow2Of64();
    Scaled(slice, h, g);
    var q, t := slice / g, slice % g;
    MultipleMod(t, h);
    OrIsSum(prefix, t * h, bit);
    DivModUnique(slice * h, TWO64, q, t * h);
    DivModUnique(prefix + slice * h, TWO64, q, prefix + t * h);
  }

  /** And from bit 64 on: nothing that is left of the modulus. */
  lemma SliceDropped(prefix: nat, slice: nat, bit: nat)
    requires bit >= 64
    ensures (prefix + Shifted(slice, bit)) % TWO64 == prefix % TWO64
  {
    hide Pow2;
    Pow2Sum(64, bit - 64);
    Pow2Of64();
    var k := slice * Pow2(bit - 64);
    assert slice * (TWO64 * Pow2(bit - 64)) == k * TWO64;
    DivModUnique(prefix + k * TWO64, TWO64, prefix / TWO64 + k, prefix % TWO64);
  }

  /** Splitting off the low seven bits. */
  lemma PrefixGrows(prefix: nat, slice: nat, i: nat, rest: nat)
    requires prefix < Pow2(7 * i) && slice < 128
    ensures prefix + Shifted(slice, 7 * i) < Pow2(7 * (i + 1))
    ensures prefix + Shifted(slice + 128 * rest, 7 * i) == (prefix + Shifted(slice, 7 * i)) + Shifted(rest, 7 * (i + 1))
  {
    var h := Pow2(7 * i);
    Pow2Sum(7 * i, 7);
    assert Pow2(7) == 128;
    assert (127 - slice) * h >= 0;
    assert h * (slice + 128 * rest) == slice * h + (h * 128) * rest;
  }

  lemma BelowBit(prefix: nat, bit: nat)
    requires prefix < Pow2(bit) && bit <= 63
    ensures prefix % TWO64 == prefix
  {
    hide Pow2;
    Pow2Sum(bit, 64 - bit);
    Pow2Of64();
    assert Pow2(bit) * (Pow2(64 - bit) - 1) >= 0;
  }

  /** What one more slice does to the number read so far, prefix of i slices, and to the result. */
  lemma SliceStep(prefix: nat, slice: nat, i: nat, rest: nat, bit: nat)
    requires prefix < Pow2(7 * i) && slice < 128 && bit == 7 * (if i <= 10 then i else 10)
    ensures prefix + Shifted(slice, 7 * i) < Pow2(7 * (i + 1))
    ensures prefix + Shifted(slice + 128 * rest, 7 * i) == (prefix + Shifted(slice, 7 * i)) + Shifted(rest, 7 * (i + 1))
    ensures (if bit <= 63 then Or(prefix % TWO64, Shifted(slice, bit) % TWO64) else prefix % TWO64)
            == (prefix + Shifted(slice, 7 * i)) % TWO64
  {
    hide Pow2, Or, Shifted;
    PrefixGrows(prefix, slice, i, rest);
    if bit <= 63 {
      BelowBit(prefix, bit);
      SliceOred(prefix, slice, bit);
    } else {
      SliceDropped(prefix, slice, 7 * i);
    }
  }

  /** read_uleb128 reads every number modulo 2^64, so inverts the encoding of every 64-bit value. */
  method ReadUleb128(mem: seq<u8>, start: nat) returns (r: Option<Number>)
    ensures r == match Uleb(mem, start)
                 case None => None
                 case Some(n) => Some(Number(n.value % TWO64, n.next))
  {
    hide Pow2, Or, Shifted;
    var p: nat, result: nat, bit: nat := start, 0, 0;
    ghost var i: nat, prefix: nat := 0, 0;
    ShiftZero();
    while true
      invariant i == p - start && bit == 7 * (if i <= 10 then i else 10)
      invariant prefix < Pow2(7 * i) && result == prefix % TWO64
      invariant match Uleb(mem, p)
                case None => Uleb(mem, start).None?
                case Some(n) => Uleb(mem, start) == Some(Number(prefix + Shifted(n.value, 7 * i), n.next))
      decreases |mem| - p
    {
      if p >= |mem| {
        return None;
      }
      var slice := mem[p] % 128;
      SliceStep(prefix, slice, i, match Uleb(mem, p + 1) case None => 0 case Some(n) => n.value, bit);
      prefix := prefix + Shifted(slice, 7 * i);
      if bit <= 63 {
        result := Or(result, Shifted(slice, bit) % TWO64);
        bit := bit + 7;
      }
      if mem[p] < 128 {
        return Some(Number(result, p + 1));
      }
      i := i + 1;
      p := p + 1;
    }
  }

  lemma ShiftZero()
    ensures Pow2(0) == 1 && forall n :: Shifted(n, 0) == n
  {
  }

  // ----- tries and their bytes

  /** A trie: an empty payload marks a node that ends no symbol. */
  datatype Trie = Node(payload: seq<u8>, edges: seq<Edge>)
  datatype Edge = Edge(text: seq<u8>, child: Trie)

  predicate IsPrefix(a: seq<u8>, b: seq<u8>) { |a| <= |b| && b[..|a|] == a }

  predicate IsText(s: seq<u8>) { forall k :: 0 <= k < |s| ==> s[k] != 0 }

  /** Labels are nonempty, and none starts with another one of the same node. */
  ghost predicate WellFormed(t: Trie)
  {
    && |t.edges| < 256
    && (forall i :: 0 <= i < |t.edges| ==>
         t.edges[i].text != [] && IsText(t.edges[i].text) && WellFormed(t.edges[i].child))
    && (forall i, j :: 0 <= i < |t.edges| && 0 <= j < |t.edges| && i != j ==>
         !IsPrefix(t.edges[i].text, t.edges[j].text))
  }

  /** The trie has the symbol, with this payload. */
  ghost predicate Contains(t: Trie, symbol: seq<u8>, payload: seq<u8>)
  {
    || (symbol == [] && t.payload != [] && payload == t.payload)
    || exists i :: 0 <= i < |t.edges| && IsPrefix(t.edges[i].text, symbol)
                   && Contains(t.edges[i].child, symbol[|t.edges[i].text|..], payload)
  }

  /** The bytes at offset at are w. */
  predicate BytesAt(mem: seq<u8>, at: nat, w: seq<u8>) { at + |w| <= |mem| && mem[at..at + |w|] == w }

  /** A node and all below it is serialized at offset at: payload size, payload, number of edges, edges. */
  ghost predicate NodeAt(mem: seq<u8>, at: nat, t: Trie)
    decreases t, |t.edges| + 1
  {
    && Uleb(mem, at).Some?
    && var size := Uleb(mem, at).value;
       var children := size.next + size.value;
    && size.value == |t.payload| < TWO64 && BytesAt(mem, size.next, t.payload)
    && children < |mem| && mem[children] == |t.edges|
    && EdgesAt(mem, children + 1, t, 0)
  }

  /** Its edges from i on are serialized at offset p: each a label, a zero, and the offset of the child. */
  ghost predicate EdgesAt(mem: seq<u8>, p: nat, t: Trie, i: nat)
    requires i <= |t.edges|
    decreases t, |t.edges| - i
  {
    i == |t.edges| ||
    var e := t.edges[i];
    var zero := p + |e.text|;
    && BytesAt(mem, p, e.text) && zero < |mem| && mem[zero] == 0
    && Uleb(mem, zero + 1).Some?
    && var offset := Uleb(mem, zero + 1).value;
    && 0 < offset.value <= |mem| && offset.value < TWO64 && NodeAt(mem, offset.value, e.child)
    && EdgesAt(mem, offset.next, t, i + 1)
  }

  // ----- the walk

  datatype Outcome =
    | Found(p: nat)  // the payload of the symbol
    | Null
    | Unsafe         // a read outside the bytes
    | Circles        // the walk never ends

  /** Where the zero-terminated text at p ends. */
  function TextEnd(mem: seq<u8>, p: nat): (r: Option<nat>)
    ensures r.Some? ==> p <= r.value < |mem| && mem[r.value] == 0 && IsText(mem[p..r.value])
    ensures r.None? ==> forall k :: p <= k < |mem| ==> mem[k] != 0
    decreases |mem| - p
  {
    if p >= |mem| then None else if mem[p] == 0 then Some(p) else TextEnd(mem, p + 1)
  }

  /** read_uleb128 */
  function Read(mem: seq<u8>, p: nat): (r: Option<Number>)
    ensures r.Some? ==> p < r.value.next <= |mem|
  {
    match Uleb(mem, p)
    case None => None
    case Some(n) => Some(Number(n.value % TWO64, n.next))
  }

  /** What scanning the edges of a node comes to. */
  datatype Scan = Follow(offset: nat, length: nat) | NoEdge | Stop(outcome: Outcome)

  /** The loop over the remaining edges, at p. */
  function ScanEdges(mem: seq<u8>, p: nat, remaining: nat, symbol: seq<u8>): (r: Scan)
    ensures r.Follow? ==> r.length <= |symbol| && 0 < r.offset <= |mem|
    ensures r.Stop? ==> r.outcome != Circles
    decreases remaining
  {
    if remaining == 0 then NoEdge
    else
      match TextEnd(mem, p)
      case None => Stop(Unsafe)
      case Some(zero) =>
        var text := mem[p..zero];
        match Read(mem, zero + 1)
        case None => Stop(Unsafe)
        case Some(offset) =>
          if !IsPrefix(text, symbol) then ScanEdges(mem, offset.next, remaining - 1, symbol)
          else if offset.value == 0 || offset.value > |mem| then Stop(Null)
          else Follow(offset.value, |text|)
  }

  /** Where a turn of the loop leads: to an outcome, or to another node with the rest of the symbol. */
  datatype Turned = Ended(outcome: Outcome) | Next(p: nat, symbol: seq<u8>)

  /** One turn of the loop, at the node at p. */
  function Turn(mem: seq<u8>, p: nat, symbol: seq<u8>): (r: Turned)
    ensures r.Next? ==> 0 < r.p <= |mem| && |r.symbol| <= |symbol| && (|r.symbol| == |symbol| ==> r.symbol == symbol)
    ensures r.Ended? ==> r.outcome != Circles
  {
    match Read(mem, p)
    case None => Ended(Unsafe)
    case Some(size) =>
      if symbol == [] && size.value != 0 then Ended(Found(size.next))
      else
        var children := size.next + size.value;
        if children > |mem| then Ended(Null)
        else if children == |mem| then Ended(Unsafe)
        else
          match ScanEdges(mem, children + 1, mem[children], symbol)
          case NoEdge => Ended(Null)
          case Stop(outcome) => Ended(outcome)
          case Follow(offset, length) => Next(offset, symbol[length..])
  }

  /** The walk from the node at p, of which idle more turns may leave the symbol as it is. */
  function WalkFor(mem: seq<u8>, p: nat, symbol: seq<u8>, idle: nat): Outcome
    decreases |symbol|, idle
  {
    match Turn(mem, p, symbol)
    case Ended(outcome) => outcome
    case Next(q, rest) =>
      if |rest| < |symbol| then WalkFor(mem, q, rest, |mem|)
      else if idle == 0 then Circles
      else WalkFor(mem, q, rest, idle - 1)
  }

  /** The walk from the node at p: by then, more idle turns than there are offsets, it is in a circle. */
  function Walk(mem: seq<u8>, p: nat, symbol: seq<u8>): Outcome { WalkFor(mem, p, symbol, |mem|) }

  /** All but a few sizes fit in one byte, which stands for itself. */
  lemma OneByte(mem: seq<u8>, p: nat)
    requires p < |mem|
    ensures mem[p] <= 127 ==> Read(mem, p) == Some(Number(mem[p], p + 1))
  {
  }

  lemma WalkStep(mem: seq<u8>, p: nat, symbol: seq<u8>, idle: nat)
    ensures WalkFor(mem, p, symbol, idle)
            == match Turn(mem, p, symbol)
               case Ended(outcome) => outcome
               case Next(q, rest) =>
                 if |rest| < |symbol| then WalkFor(mem, q, rest, |mem|)
                 else if idle == 0 then Circles else WalkFor(mem, q, rest, idle - 1)
  {
    hide Turn;
  }

  lemma WalkOutside(mem: seq<u8>, p: nat, symbol: seq<u8>, idle: nat)
    requires p >= |mem|
    ensures WalkFor(mem, p, symbol, idle) == Unsafe
  {
    WalkStep(mem, p, symbol, idle);
    hide WalkFor;
  }

  /** walk_exported_trie, which does not return where this returns Circles. */
  method WalkExportedTrie(mem: seq<u8>, name: seq<u8>) returns (r: Outcome)
    requires IsText(name)
    ensures r == Walk(mem, 0, name)
  {
    hide ScanEdges, IsText, Uleb, WalkFor;
    var symbol, p: nat, idle: nat := name, 0, |mem|;
    while true
      invariant WalkFor(mem, p, symbol, idle) == Walk(mem, 0, name)
      decreases |symbol|, idle
    {
      if p >= |mem| {
        WalkOutside(mem, p, symbol, idle);
        return Unsafe;
      }
      OneByte(mem, p);
      WalkStep(mem, p, symbol, idle);
      var terminalSize: nat := mem[p];
      p := p + 1;
      if terminalSize > 127 {
        p := p - 1;
        var size := ReadUleb128(mem, p);
        if size.None? {
          return Unsafe;
        }
        terminalSize, p := size.value.value, size.value.next;
      }
      if symbol == [] && terminalSize != 0 {
        return Found(p);
      }
      var children := p + terminalSize;
      if children > |mem| {
        return Null;
      }
      if children == |mem| {
        return Unsafe;
      }
      var scan := ScanChildren(mem, children, symbol);
      match scan
      case NoEdge => return Null;
      case Stop(outcome) => return outcome;
      case Follow(offset, length) =>
        if length == 0 && idle == 0 {
          return Circles;
        }
        symbol, p, idle := symbol[length..], offset, if length == 0 then idle - 1 else |mem|;
    }
  }

  /** The loop over the edges of the node whose children are at children. */
  method ScanChildren(mem: seq<u8>, children: nat, symbol: seq<u8>) returns (r: Scan)
    requires children < |mem|
    ensures r == ScanEdges(mem, children + 1, mem[children], symbol)
  {
    hide Uleb, TextEnd, IsPrefix;
    var childrenRemaining: nat, p: nat := mem[children], children + 1;
    while childrenRemaining > 0
      invariant ScanEdges(mem, children + 1, mem[children], symbol) == ScanEdges(mem, p, childrenRemaining, symbol)
    {
      var start := p;
      var edge := MatchEdge(mem, p, symbol);
      if edge.None? {
        return Stop(Unsafe);
      }
      var (wrongEdge, zero) := edge.value;
      p := zero + 1;
      if wrongEdge {
        var next := SkipUleb(mem, p);
        if next.None? {
          return Stop(Unsafe);
        }
        p := next.value;
      } else {
        var offset := ReadUleb128(mem, p);
        if offset.None? {
          return Stop(Unsafe);
        }
        if offset.value.value == 0 || offset.value.value > |mem| {
          return Stop(Null);
        }
        return Follow(offset.value.value, zero - start);
      }
      childrenRemaining := childrenRemaining - 1;
    }
    return NoEdge;
  }

  lemma PrefixStep(text: seq<u8>, c: u8, symbol: seq<u8>)
    ensures IsPrefix([], symbol)
    ensures IsPrefix(text + [c], symbol) <==> IsPrefix(text, symbol) && |text| < |symbol| && symbol[|text|] == c
  {
    var longer := text + [c];
    assert longer[..|text|] == text && longer[|text|] == c;
    if |text| < |symbol| {
      assert symbol[..|longer|] == symbol[..|text|] + [symbol[|text|]];
      assert symbol[..|longer|][..|text|] == symbol[..|text|];
    }
  }

  /** The scan of one edge's label, to its end whether it matches or not. */
  method MatchEdge(mem: seq<u8>, start: nat, symbol: seq<u8>) returns (r: Option<(bool, nat)>)
    ensures r == match TextEnd(mem, start)
                 case None => None
                 case Some(zero) => Some((!IsPrefix(mem[start..zero], symbol), zero))
  {
    var p, ss, wrongEdge := start, 0, false;
    if p >= |mem| {
      return None;
    }
    hide IsPrefix;
    assert mem[start..p] == [];
    PrefixStep([], 0, symbol);
    var c := mem[p];
    while c != 0
      invariant start <= p < |mem| && c == mem[p] && 0 <= ss <= |symbol|
      invariant TextEnd(mem, p) == TextEnd(mem, start)
      invariant wrongEdge <==> !IsPrefix(mem[start..p], symbol)
      invariant !wrongEdge ==> ss == p - start
      decreases |mem| - p
    {
      assert mem[start..p + 1] == mem[start..p] + [c];
      PrefixStep(mem[start..p], c, symbol);
      if !wrongEdge {
        if ss == |symbol| || c != symbol[ss] {
          wrongEdge := true;
        } else {
          ss := ss + 1;
        }
      }
      p := p + 1;
      if p >= |mem| {
        return None;
      }
      c := mem[p];
    }
    return Some((wrongEdge, p));
  }

  /** Over the bytes of a number, up to behind the last one. */
  method SkipUleb(mem: seq<u8>, start: nat) returns (next: Option<nat>)
    ensures next == match Uleb(mem, start)
                    case None => None
                    case Some(n) => Some(n.next)
  {
    var p := start;
    while p < |mem| && mem[p] >= 128
      invariant start <= p
      invariant match Uleb(mem, p)
                case None => Uleb(mem, start).None?
                case Some(n) => Uleb(mem, start).Some? && Uleb(mem, start).value.next == n.next
      decreases |mem| - p
    {
      p := p + 1;
    }
    if p >= |mem| {
      return None;
    }
    return Some(p + 1);
  }

  // ----- the walk finds exactly the symbols of the trie

  lemma {:induction false} TextEndIs(mem: seq<u8>, p: nat, text: seq<u8>)
    requires BytesAt(mem, p, text) && IsText(text) && p + |text| < |mem| && mem[p + |text|] == 0
    ensures TextEnd(mem, p) == Some(p + |text|)
    decreases |text|
  {
    if text != [] {
      assert mem[p] == mem[p..p + |text|][0];
      assert mem[p + 1..p + 1 + |text[1..]|] == text[1..];
      TextEndIs(mem, p + 1, text[1..]);
    }
  }

  lemma EdgeText(t: Trie, i: nat)
    requires WellFormed(t) && i < |t.edges|
    ensures t.edges[i].text != [] && IsText(t.edges[i].text)
  {
  }

  /** Scanning edge i. */
  lemma ScanStep(mem: seq<u8>, p: nat, t: Trie, i: nat, symbol: seq<u8>) returns (offset: Number)
    requires i < |t.edges| && EdgesAt(mem, p, t, i) && WellFormed(t)
    ensures EdgesAt(mem, offset.next, t, i + 1) && NodeAt(mem, offset.value, t.edges[i].child)
    ensures ScanEdges(mem, p, |t.edges| - i, symbol)
            == if IsPrefix(t.edges[i].text, symbol) then Follow(offset.value, |t.edges[i].text|)
               else ScanEdges(mem, offset.next, |t.edges| - (i + 1), symbol)
  {
    hide TextEnd, Uleb, NodeAt, WellFormed, IsPrefix, IsText;
    var text := t.edges[i].text;
    EdgeText(t, i);
    TextEndIs(mem, p, text);
    offset := Uleb(mem, p + |text| + 1).value;
  }

  lemma NoMoreEdges(mem: seq<u8>, p: nat, symbol: seq<u8>)
    ensures ScanEdges(mem, p, 0, symbol) == NoEdge
  {
  }

  /** Scanning a node's edges from i on comes to the first one, k, that the symbol starts with. */
  lemma {:induction false} ScanFinds(mem: seq<u8>, p: nat, t: Trie, i: nat, symbol: seq<u8>) returns (k: nat)
    requires i <= |t.edges| && EdgesAt(mem, p, t, i) && WellFormed(t)
    ensures i <= k <= |t.edges|
    ensures k == |t.edges| ==> ScanEdges(mem, p, |t.edges| - i, symbol) == NoEdge
                               && forall j :: i <= j < |t.edges| ==> !IsPrefix(t.edges[j].text, symbol)
    ensures k < |t.edges| ==> IsPrefix(t.edges[k].text, symbol)
                              && var scan := ScanEdges(mem, p, |t.edges| - i, symbol);
                                 scan.Follow? && scan.length == |t.edges[k].text|
                                     && NodeAt(mem, scan.offset, t.edges[k].child)
    decreases |t.edges| - i
  {
    hide ScanEdges, EdgesAt, NodeAt, WellFormed, IsPrefix;
    k := i;
    if i < |t.edges| {
      var offset := ScanStep(mem, p, t, i, symbol);
      if !IsPrefix(t.edges[i].text, symbol) {
        k := ScanFinds(mem, offset.next, t, i + 1, symbol);
      }
    } else {
      NoMoreEdges(mem, p, symbol);
    }
  }

  // ----- one turn on any node, well-formed or not

  /** An edge as it is in the bytes: its label, and where it says the child is. */
  datatype RawEdge = RawEdge(text: seq<u8>, offset: nat)

  ghost predicate RawEdgesAt(mem: seq<u8>, p: nat, edges: seq<RawEdge>)
    decreases |edges|
  {
    edges == [] ||
    var zero := p + |edges[0].text|;
    && IsText(edges[0].text) && BytesAt(mem, p, edges[0].text) && zero < |mem| && mem[zero] == 0
    && Uleb(mem, zero + 1).Some?
    && var offset := Uleb(mem, zero + 1).value;
       edges[0].offset == offset.value % TWO64 && RawEdgesAt(mem, offset.next, edges[1..])
  }

  /** Edge k is the first whose label the symbol starts with; there is none if k is their number. */
  ghost predicate FirstEdge(edges: seq<RawEdge>, symbol: seq<u8>, k: nat)
  {
    && k <= |edges| && (forall j :: 0 <= j < k ==> !IsPrefix(edges[j].text, symbol))
    && (k < |edges| ==> IsPrefix(edges[k].text, symbol))
  }

  lemma RawStep(mem: seq<u8>, p: nat, edges: seq<RawEdge>, symbol: seq<u8>) returns (next: nat)
    requires edges != [] && RawEdgesAt(mem, p, edges)
    ensures RawEdgesAt(mem, next, edges[1..])
    ensures var e := edges[0];
            ScanEdges(mem, p, |edges|, symbol)
            == if !IsPrefix(e.text, symbol) then ScanEdges(mem, next, |edges| - 1, symbol)
               else if e.offset == 0 || e.offset > |mem| then Stop(Null) else Follow(e.offset, |e.text|)
  {
    hide Uleb, TextEnd, IsPrefix, IsText;
    TextEndIs(mem, p, edges[0].text);
    next := Uleb(mem, p + |edges[0].text| + 1).value.next;
  }

  lemma {:induction false} RawScan(mem: seq<u8>, p: nat, edges: seq<RawEdge>, symbol: seq<u8>, k: nat)
    requires RawEdgesAt(mem, p, edges) && FirstEdge(edges, symbol, k)
    ensures ScanEdges(mem, p, |edges|, symbol)
            == if k == |edges| then NoEdge
               else if edges[k].offset == 0 || edges[k].offset > |mem| then Stop(Null)
               else Follow(edges[k].offset, |edges[k].text|)
    decreases |edges|
  {
    hide ScanEdges, RawEdgesAt, IsPrefix;
    if edges == [] {
      NoMoreEdges(mem, p, symbol);
    } else {
      var next := RawStep(mem, p, edges, symbol);
      if k > 0 {
        RawScan(mem, next, edges[1..], symbol, k - 1);
      }
    }
  }

  /**
    A node whose payload would reach past the end has no children; and an edge that would lead to offset 0
    or past the end, if it is the one to follow, ends the walk: both with NULL, and nothing else does but
    the lack of an edge.
   */
  lemma TurnExactly(mem: seq<u8>, p: nat, symbol: seq<u8>, size: Number, edges: seq<RawEdge>, k: nat)
    requires Uleb(mem, p) == Some(size) && FirstEdge(edges, symbol, k)
    ensures var payload := size.value % TWO64;
            var children := size.next + payload;
            && (symbol == [] && payload != 0 ==> Turn(mem, p, symbol) == Ended(Found(size.next)))
            && ((symbol != [] || payload == 0) && children > |mem| ==> Turn(mem, p, symbol) == Ended(Null))
            && ((symbol != [] || payload == 0) && children < |mem| && mem[children] == |edges|
                && RawEdgesAt(mem, children + 1, edges) ==>
                  Turn(mem, p, symbol) == if k == |edges| || edges[k].offset == 0 || edges[k].offset > |mem|
                                          then Ended(Null) else Next(edges[k].offset, symbol[|edges[k].text|..]))
  {
    hide ScanEdges, Uleb, FirstEdge, RawEdgesAt;
    var children := size.next + size.value % TWO64;
    if children < |mem| && RawEdgesAt(mem, children + 1, edges) {
      RawScan(mem, children + 1, edges, symbol, k);
      FirstEdgeFits(edges, symbol, k);
    }
  }

  lemma FirstEdgeFits(edges: seq<RawEdge>, symbol: seq<u8>, k: nat)
    requires FirstEdge(edges, symbol, k)
    ensures k < |edges| ==> |edges[k].text| <= |symbol|
    ensures k <= |edges|
  {
  }

  /** Of a node's edges, a symbol can start with at most one. */
  lemma OneEdge(t: Trie, symbol: seq<u8>, i: nat, j: nat)
    requires WellFormed(t) && i < |t.edges| && j < |t.edges|
    requires IsPrefix(t.edges[i].text, symbol) && IsPrefix(t.edges[j].text, symbol)
    ensures i == j
  {
    PrefixesNest(t.edges[i].text, t.edges[j].text, symbol);
    PrefixesNest(t.edges[j].text, t.edges[i].text, symbol);
  }

  lemma PrefixesNest(a: seq<u8>, b: seq<u8>, s: seq<u8>)
    requires IsPrefix(a, s) && IsPrefix(b, s)
    ensures |a| <= |b| ==> IsPrefix(a, b)
  {
    if |a| <= |b| {
      assert b[..|a|] == s[..|b|][..|a|] == s[..|a|];
    }
  }

  /** The walk from a serialized node: to the payload of the symbol, if the trie below has it, else to nothing. */
  lemma {:induction false} WalkFindsExactly(mem: seq<u8>, p: nat, t: Trie, symbol: seq<u8>) returns (payload: seq<u8>)
    requires NodeAt(mem, p, t) && WellFormed(t)
    ensures Walk(mem, p, symbol).Found? || Walk(mem, p, symbol).Null?
    ensures Walk(mem, p, symbol).Found? ==>
              Contains(t, symbol, payload) && BytesAt(mem, Walk(mem, p, symbol).p, payload)
    ensures forall w :: Contains(t, symbol, w) ==> Walk(mem, p, symbol).Found? && w == payload
    decreases t
  {
    hide NodeAt, Turn, WellFormed, BytesAt;
    payload := t.payload;
    var k := TurnFinds(mem, p, t, symbol);
    if k < |t.edges| {
      var rest := symbol[|t.edges[k].text|..];
      EdgeSound(t, k);
      payload := WalkFindsExactly(mem, Turn(mem, p, symbol).p, t.edges[k].child, rest);
      forall w, i | 0 <= i < |t.edges| && IsPrefix(t.edges[i].text, symbol)
                    && Contains(t.edges[i].child, symbol[|t.edges[i].text|..], w)
        ensures i == k && w == payload
      {
        OneEdge(t, symbol, i, k);
      }
    }
  }

  lemma EdgeSound(t: Trie, k: nat)
    requires WellFormed(t) && k < |t.edges|
    ensures WellFormed(t.edges[k].child) && t.edges[k].text != []
  {
  }

  /**
    One turn at a serialized node: to its payload, to the child k whose label the symbol starts with, or to
    nothing.
   */
  lemma TurnFinds(mem: seq<u8>, p: nat, t: Trie, symbol: seq<u8>) returns (k: nat)
    requires NodeAt(mem, p, t) && WellFormed(t)
    ensures k <= |t.edges|
    ensures k < |t.edges| ==>
              && IsPrefix(t.edges[k].text, symbol) && |t.edges[k].text| <= |symbol|
                 && !(symbol == [] && t.payload != [])
              && var turn := Turn(mem, p, symbol);
                 turn.Next? && turn.symbol == symbol[|t.edges[k].text|..] && NodeAt(mem, turn.p, t.edges[k].child)
    ensures k == |t.edges| ==>
              && (forall j :: 0 <= j < |t.edges| ==> !IsPrefix(t.edges[j].text, symbol))
              && if symbol == [] && t.payload != [] then
                   Turn(mem, p, symbol).Ended? && Turn(mem, p, symbol).outcome.Found?
                   && BytesAt(mem, Turn(mem, p, symbol).outcome.p, t.payload)
                 else Turn(mem, p, symbol) == Ended(Null)
  {
    hide Read, ScanEdges, EdgesAt, NodeAt, BytesAt, WellFormed;
    k := |t.edges|;
    var size := NodeParts(mem, p, t);
    if symbol == [] && t.payload != [] {
      forall i | 0 <= i < |t.edges|
        ensures !IsPrefix(t.edges[i].text, symbol)
      {
        EdgeSound(t, i);
      }
    } else {
      k := ScanFinds(mem, size.next + size.value + 1, t, 0, symbol);
    }
  }

  /** What is read at a serialized node. */
  lemma NodeParts(mem: seq<u8>, p: nat, t: Trie) returns (size: Number)
    requires NodeAt(mem, p, t)
    ensures Read(mem, p) == Some(size) && size.value == |t.payload| && BytesAt(mem, size.next, t.payload)
    ensures size.next + size.value < |mem| && mem[size.next + size.value] == |t.edges|
    ensures EdgesAt(mem, size.next + size.value + 1, t, 0)
  {
    hide Uleb, EdgesAt;
    size := Uleb(mem, p).value;
  }

  /** walk_exported_trie on any serialization of any well-formed trie. */
  lemma ExportedSymbols(mem: seq<u8>, t: Trie, symbol: seq<u8>)
    requires NodeAt(mem, 0, t) && WellFormed(t)
    ensures forall w :: Contains(t, symbol, w) ==>
              Walk(mem, 0, symbol).Found? && BytesAt(mem, Walk(mem, 0, symbol).p, w)
    ensures (forall w :: !Contains(t, symbol, w)) <==> Walk(mem, 0, symbol) == Null
  {
    var payload := WalkFindsExactly(mem, 0, t, symbol);
  }

  // ----- circles

  /** n turns of the loop, or as many as there are. */
  function Turns(mem: seq<u8>, p: nat, symbol: seq<u8>, n: nat): Turned
  {
    if n == 0 then Next(p, symbol)
    else
      match Turns(mem, p, symbol, n - 1)
      case Ended(outcome) => Ended(outcome)
      case Next(q, rest) => Turn(mem, q, rest)
  }

  ghost predicate NeverEnds(mem: seq<u8>, p: nat, symbol: seq<u8>)
  {
    forall n: nat :: Turns(mem, p, symbol, n).Next?
  }

  lemma {:induction false} TurnsAfter(mem: seq<u8>, p: nat, symbol: seq<u8>, m: nat, n: nat)
    requires Turns(mem, p, symbol, m).Next?
    ensures var t := Turns(mem, p, symbol, m); Turns(mem, p, symbol, m + n) == Turns(mem, t.p, t.symbol, n)
    decreases n
  {
    hide Turn;
    if n > 0 {
      TurnsAfter(mem, p, symbol, m, n - 1);
    }
  }

  lemma EndsAfterTurn(mem: seq<u8>, p: nat, symbol: seq<u8>)
    requires Turn(mem, p, symbol).Next?
    ensures var t := Turn(mem, p, symbol); NeverEnds(mem, p, symbol) <==> NeverEnds(mem, t.p, t.symbol)
  {
    hide Turn;
    var t := Turn(mem, p, symbol);
    assert Turns(mem, p, symbol, 0) == Next(p, symbol);
    assert Turns(mem, p, symbol, 1) == t;
    forall n: nat
      ensures Turns(mem, p, symbol, 1 + n) == Turns(mem, t.p, t.symbol, n)
    {
      TurnsAfter(mem, p, symbol, 1, n);
    }
    if NeverEnds(mem, t.p, t.symbol) {
      forall n: nat
        ensures Turns(mem, p, symbol, n).Next?
      {
        if n > 0 {
          assert Turns(mem, p, symbol, 1 + (n - 1)) == Turns(mem, t.p, t.symbol, n - 1);
        }
      }
    }
  }

  /** A walk that has an outcome has ended. */
  lemma {:induction false} OutcomeEnds(mem: seq<u8>, p: nat, symbol: seq<u8>, idle: nat)
    requires WalkFor(mem, p, symbol, idle) != Circles
    ensures !NeverEnds(mem, p, symbol)
    decreases |symbol|, idle
  {
    hide Turn, NeverEnds, Turns;
    match Turn(mem, p, symbol)
    case Ended(_) => EndedAtOnce(mem, p, symbol);
    case Next(q, rest) =>
      OutcomeEnds(mem, q, rest, if |rest| < |symbol| then |mem| else idle - 1);
      EndsAfterTurn(mem, p, symbol);
  }

  lemma EndedAtOnce(mem: seq<u8>, p: nat, symbol: seq<u8>)
    requires Turn(mem, p, symbol).Ended?
    ensures !NeverEnds(mem, p, symbol)
  {
    assert Turns(mem, p, symbol, 0) == Next(p, symbol);
    assert Turns(mem, p, symbol, 1).Ended?;
  }

  /** n turns that leave the symbol as it is. */
  ghost predicate Idle(mem: seq<u8>, p: nat, symbol: seq<u8>, n: nat)
  {
    forall k :: 0 <= k <= n ==> Turns(mem, p, symbol, k).Next? && Turns(mem, p, symbol, k).symbol == symbol
  }

  /** A walk that ran out of idle turns has made them, all in a row. */
  lemma {:induction false} RanIdle(mem: seq<u8>, p0: nat, symbol: seq<u8>, m: nat, idle: nat)
    requires Idle(mem, p0, symbol, m) && WalkFor(mem, Turns(mem, p0, symbol, m).p, symbol, idle) == Circles
    ensures NeverEnds(mem, p0, symbol) || Idle(mem, p0, symbol, m + idle + 1)
    decreases |symbol|, 1, idle
  {
    hide Turn;
    var p := Turns(mem, p0, symbol, m).p;
    assert Turn(mem, p, symbol).Next?;
    var t := Turn(mem, p, symbol);
    assert Turns(mem, p0, symbol, m + 1) == t;
    if |t.symbol| < |symbol| {
      CirclesNeverEnd(mem, t.p, t.symbol);
      NeverEndsBefore(mem, p0, symbol, m + 1);
    } else if idle > 0 {
      RanIdle(mem, p0, symbol, m + 1, idle - 1);
    }
  }

  lemma NeverEndsBefore(mem: seq<u8>, p: nat, symbol: seq<u8>, m: nat)
    requires Turns(mem, p, symbol, m).Next?
             && NeverEnds(mem, Turns(mem, p, symbol, m).p, Turns(mem, p, symbol, m).symbol)
    ensures NeverEnds(mem, p, symbol)
  {
    hide Turn;
    var t := Turns(mem, p, symbol, m);
    forall n: nat
      ensures Turns(mem, p, symbol, n).Next?
    {
      if n >= m {
        TurnsAfter(mem, p, symbol, m, n - m);
      } else {
        EndedBefore(mem, p, symbol, n, m);
      }
    }
  }

  lemma {:induction false} EndedBefore(mem: seq<u8>, p: nat, symbol: seq<u8>, n: nat, m: nat)
    requires n <= m && Turns(mem, p, symbol, m).Next?
    ensures Turns(mem, p, symbol, n).Next?
    decreases m
  {
    hide Turn;
    if n < m {
      EndedBefore(mem, p, symbol, n, m - 1);
    }
  }

  /** Of more numbers than there are values, two are the same. */
  lemma {:induction false} Pigeonhole(f: seq<nat>, m: nat) returns (i: nat, j: nat)
    requires |f| > m && forall k :: 0 <= k < |f| ==> 0 < f[k] <= m
    ensures i < j < |f| && f[i] == f[j]
    decreases m
  {
    var last := |f| - 1;
    if k :| 0 <= k < last && f[k] == f[last] {
      return k, last;
    }
    var v := f[last];
    var g := seq(last, k requires 0 <= k < last => if f[k] > v then f[k] - 1 else f[k]);
    i, j := Pigeonhole(g, m - 1);
  }

  /** A walk that comes back to a node with the same symbol left goes on forever. */
  lemma {:induction false} GoesRound(mem: seq<u8>, p: nat, symbol: seq<u8>, i: nat, j: nat, n: nat)
    requires i < j && Turns(mem, p, symbol, j).Next? && Turns(mem, p, symbol, i) == Turns(mem, p, symbol, j)
    ensures Turns(mem, p, symbol, n).Next?
    decreases n
  {
    hide Turn;
    if n <= j {
      EndedBefore(mem, p, symbol, n, j);
    } else {
      TurnsAfter(mem, p, symbol, j, n - j);
      TurnsAfter(mem, p, symbol, i, n - j);
      GoesRound(mem, p, symbol, i, j, i + (n - j));
    }
  }

  /** After more idle turns than there are offsets, the walk is in a circle. */
  lemma IdleGoesRound(mem: seq<u8>, p: nat, symbol: seq<u8>)
    requires Idle(mem, p, symbol, |mem| + 1)
    ensures NeverEnds(mem, p, symbol)
  {
    hide Turn;
    var f := seq(|mem| + 1, k requires 0 <= k < |mem| + 1 => Turns(mem, p, symbol, k + 1).p);
    var i, j := Pigeonhole(f, |mem|);
    assert Turns(mem, p, symbol, i + 1) == Turns(mem, p, symbol, j + 1);
    forall n: nat
      ensures Turns(mem, p, symbol, n).Next?
    {
      GoesRound(mem, p, symbol, i + 1, j + 1, n);
    }
  }

  lemma {:induction false} CirclesNeverEnd(mem: seq<u8>, p: nat, symbol: seq<u8>)
    requires Walk(mem, p, symbol) == Circles
    ensures NeverEnds(mem, p, symbol)
    decreases |symbol|, 2
  {
    hide Turn, NeverEnds;
    assert Turns(mem, p, symbol, 0) == Next(p, symbol);
    RanIdle(mem, p, symbol, 0, |mem|);
    if !NeverEnds(mem, p, symbol) {
      IdleGoesRound(mem, p, symbol);
    }
  }

  /** On any bytes, for any symbol: the outcome is Circles exactly if the loop never ends. */
  lemma CirclesExactly(mem: seq<u8>, p: nat, symbol: seq<u8>)
    ensures Walk(mem, p, symbol) == Circles <==> NeverEnds(mem, p, symbol)
  {
    hide NeverEnds, WalkFor;
    if Walk(mem, p, symbol) == Circles {
      CirclesNeverEnd(mem, p, symbol);
    } else {
      OutcomeEnds(mem, p, symbol, |mem|);
    }
  }

  const CIRCLE: seq<u8> := [0, 1, 0, 4, 0, 1, 0, 4]

  /** A root, and a node that is its own child over an edge without a label: no symbol is ever looked up. */
  lemma EmptyLabelCircles(symbol: seq<u8>)
    ensures Walk(CIRCLE, 0, symbol) == Circles
  {
    hide Turn, WalkFor;
    CircleTurns(0, symbol);
    CircleTurns(4, symbol);
    forall n: nat
      ensures Turns(CIRCLE, 0, symbol, n).Next?
    {
      RoundCircle(symbol, n);
    }
    CirclesExactly(CIRCLE, 0, symbol);
  }

  lemma CircleTurns(p: nat, symbol: seq<u8>)
    requires p == 0 || p == 4
    ensures Turn(CIRCLE, p, symbol) == Next(4, symbol)
  {
    assert TextEnd(CIRCLE, p + 2) == Some(p + 2) && CIRCLE[p + 2..p + 2] == [];
    assert symbol[0..] == symbol;
    assert ScanEdges(CIRCLE, p + 2, 1, symbol) == Follow(4, 0);
  }

  lemma {:induction false} RoundCircle(symbol: seq<u8>, n: nat)
    ensures Turns(CIRCLE, 0, symbol, n) == Next(if n == 0 then 0 else 4, symbol)
  {
    hide Turn;
    if n > 0 {
      RoundCircle(symbol, n - 1);
      CircleTurns(if n == 1 then 0 else 4, symbol);
    }
  }

  const SMALLEST: seq<u8> := [0, 1, 97, 0, 5, 1, 42, 0]

  /** A serialization: a root without payload, and one edge, "a", to a node with the payload 42. */
  lemma SmallestTrie()
    ensures var t := Node([], [Edge([97], Node([42], []))]);
            NodeAt(SMALLEST, 0, t) && WellFormed(t) && Contains(t, [97], [42]) && Walk(SMALLEST, 0, [97]) == Found(6)
  {
    hide NodeAt, Walk, Contains;
    SmallestIsTrie();
    SmallestContains();
    SmallestWalk();
  }

  lemma SmallestIsTrie()
    ensures var t := Node([], [Edge([97], Node([42], []))]);
            NodeAt(SMALLEST, 0, t) && WellFormed(t)
  {
    var leaf := Node([42], []);
    var t := Node([], [Edge([97], leaf)]);
    var mem := SMALLEST;
    assert mem[6..7] == [42] && mem[1..1] == [] && mem[2..3] == [97];
    assert EdgesAt(mem, 8, leaf, 0);
    assert NodeAt(mem, 5, leaf);
    assert EdgesAt(mem, 5, t, 1);
    assert EdgesAt(mem, 2, t, 0);
  }

  lemma SmallestContains()
    ensures Contains(Node([], [Edge([97], Node([42], []))]), [97], [42])
  {
    assert [97][1..] == [] && [97][..1] == [97];
    var t := Node([], [Edge([97], Node([42], []))]);
    assert Contains(Node([42], []), [], [42]);
    assert t.edges[0].text == [97] && IsPrefix(t.edges[0].text, [97]);
  }

  lemma SmallestWalk()
    ensures Walk(SMALLEST, 0, [97]) == Found(6)
  {
    hide IsText;
    assert TextEnd(SMALLEST, 2) == Some(3);
    assert SMALLEST[2..3] == [97] && [97][1..] == [] && [97][..1] == [97];
    assert ScanEdges(SMALLEST, 2, 1, [97]) == Follow(5, 1);
    assert Walk(SMALLEST, 5, []) == Found(6);
  }
}
