/** Reading a body of bounded size into one buffer that grows geometrically. */
module GrowingBuffer {
  import opened Outcomes

  type Byte = b: int | 0 <= b < 0x100

  /** What a read of the stream yields; `Broken` stands for a read that throws, an abort included. */
  datatype Item = Chunk(data: seq<Byte>) | NotBytes | Broken

  datatype Fault = InvalidResponse | ResponseTooLarge | ReadFailed

  /** The body as a whole, or the fault of the first item that has one. */
  function Body(items: seq<Item>, limit: nat, expectEmpty: bool, received: nat): Result<seq<Byte>, Fault>
    decreases items
  {
    if items == [] then Ok([])
    else if items[0].Broken? then Err(ReadFailed)
    else if items[0].NotBytes? then Err(InvalidResponse)
    else if expectEmpty && items[0].data != [] then Err(InvalidResponse)
    else if received + |items[0].data| > limit then Err(ResponseTooLarge)
    else After(items[0].data, Body(items[1..], limit, expectEmpty, received + |items[0].data|))
  }

  function After(seen: seq<Byte>, rest: Result<seq<Byte>, Fault>): Result<seq<Byte>, Fault> {
    if rest.Ok? then Ok(seen + rest.value) else rest
  }

  lemma AfterConcatenates(seen: seq<Byte>, chunk: seq<Byte>, rest: Result<seq<Byte>, Fault>)
    ensures After(seen, After(chunk, rest)) == After(seen + chunk, rest)
    ensures After([], rest) == rest
  {
    if rest.Ok? {
      assert seen + (chunk + rest.value) == seen + chunk + rest.value;
      assert [] + rest.value == rest.value;
    }
  }

  lemma AfterNothing(seen: seq<Byte>)
    ensures After(seen, Ok([])) == Ok(seen)
  {
    assert seen + [] == seen;
  }

  predicate AllChunks(items: seq<Item>) {
    forall i :: 0 <= i < |items| ==> items[i].Chunk?
  }

  function Concatenation(items: seq<Item>): seq<Byte>
    requires AllChunks(items)
  {
    if items == [] then [] else items[0].data + Concatenation(items[1..])
  }

  /** The body is the concatenation of the chunks exactly when their total is within the limit. */
  lemma {:induction false} BodyIsConcatenation(items: seq<Item>, limit: nat, received: nat)
    requires AllChunks(items) && received <= limit
    ensures Body(items, limit, false, received)
         == if received + |Concatenation(items)| <= limit then Ok(Concatenation(items)) else Err(ResponseTooLarge)
    decreases items
  {
    if items != [] && received + |items[0].data| <= limit {
      BodyIsConcatenation(items[1..], limit, received + |items[0].data|);
    }
  }

  /** Where an empty body is expected, only empty chunks are accepted. */
  lemma {:induction false} EmptyBodyIsEmpty(items: seq<Item>, limit: nat, received: nat)
    requires received <= limit
    ensures Body(items, limit, true, received).Ok? <==> AllChunks(items) && Concatenation(items) == []
    ensures Body(items, limit, true, received).Ok? ==> Body(items, limit, true, received).value == []
    decreases items
  {
    if items != [] && items[0].Chunk? && items[0].data == [] {
      EmptyBodyIsEmpty(items[1..], limit, received);
      assert AllChunks(items) <==> AllChunks(items[1..]);
    } else if items != [] && AllChunks(items) {
      assert |Concatenation(items)| == |items[0].data| + |Concatenation(items[1..])|;
    }
  }

  function Max(a: nat, b: nat): nat {
    if a < b then b else a
  }

  function Min(a: nat, b: nat): nat {
    if a < b then a else b
  }

  /** The size to grow to holds what is to come, keeps within the limit, and at most doubles what has been received. */
  lemma GrownSize(size: nat, next: nat, limit: nat)
    requires size < next <= limit
    ensures var grown := Min(limit, Max(next, size * 2));
            next <= grown <= limit && grown < 2 * next && (grown == limit || 2 * size <= grown)
  {
  }

  /** A buffer of the given size that begins with the contents of another. */
  method Grown(bytes: array<Byte>, size: nat) returns (grown: array<Byte>)
    requires bytes.Length <= size
    ensures fresh(grown) && grown.Length == size && grown[..bytes.Length] == bytes[..]
  {
    grown := new Byte[size](_ => 0);
    forall i | 0 <= i < bytes.Length {
      grown[i] := bytes[i];
    }
  }

  method Set(bytes: array<Byte>, chunk: seq<Byte>, offset: nat)
    requires offset + |chunk| <= bytes.Length
    modifies bytes
    ensures bytes[..offset + |chunk|] == old(bytes[..offset]) + chunk
  {
    forall i | 0 <= i < |chunk| {
      bytes[offset + i] := chunk[i];
    }
  }

  /**
   * The loop yields the body, never holds a buffer larger than the limit or twice the bytes received, and copies fewer
   * than twice as many bytes from one buffer to the next as it has received.
   */
  method ReadBody(items: seq<Item>, limit: nat, expectEmpty: bool)
    returns (r: Result<seq<Byte>, Fault>, capacity: nat, received: nat, copied: nat)
    ensures r == Body(items, limit, expectEmpty, 0)
    ensures r.Ok? ==> received == |r.value|
    ensures received <= capacity <= limit
    ensures capacity < 2 * received || capacity == 0
    ensures copied < 2 * received || copied == received == 0
  {
    var bytes := new Byte[0];
    hide After, Min, Max;
    ghost var whole := Body(items, limit, expectEmpty, 0);
    AfterConcatenates([], [], whole);
    assert items[0..] == items;
    ghost var seen: seq<Byte> := [];
    var next := 0;
    copied := 0;
    received := 0;
    while next < |items|
      invariant 0 <= next <= |items|
      invariant fresh(bytes)
      invariant received == |seen| <= bytes.Length <= limit && bytes[..received] == seen
      invariant bytes.Length < 2 * received || bytes.Length == 0
      invariant copied < 2 * received || copied == received == 0
      invariant bytes.Length == limit || copied <= bytes.Length
      invariant whole == After(seen, Body(items[next..], limit, expectEmpty, received))
    {
      var item := items[next];
      capacity := bytes.Length;
      assert items[next..][0] == item && items[next..][1..] == items[next + 1..];
      if item.Broken? {
        return Err(ReadFailed), capacity, received, copied;
      }
      if item.NotBytes? || (expectEmpty && item.data != []) {
        return Err(InvalidResponse), capacity, received, copied;
      }
      var chunk := item.data;
      if |chunk| > limit - received {
        return Err(ResponseTooLarge), capacity, received, copied;
      }
      var nextLength := received + |chunk|;
      if nextLength > bytes.Length {
        GrownSize(bytes.Length, nextLength, limit);
        copied := copied + bytes.Length;
        bytes := Grown(bytes, Min(limit, Max(nextLength, bytes.Length * 2)));
      }
      assert bytes[..received] == seen;
      Set(bytes, chunk, received);
      AfterConcatenates(seen, chunk, Body(items[next + 1..], limit, expectEmpty, nextLength));
      received := nextLength;
      seen := seen + chunk;
      next := next + 1;
    }
    AfterNothing(seen);
    return Ok(bytes[..received]), bytes.Length, received, copied;
  }

  // The fault of a body

  /** The loop takes the item and goes on. */
  predicate IsTaken(item: Item, expectEmpty: bool) {
    item.Chunk? && (expectEmpty ==> item.data == [])
  }

  function Size(item: Item): nat {
    if item.Chunk? then |item.data| else 0
  }

  function Total(items: seq<Item>): nat {
    if items == [] then 0 else Size(items[0]) + Total(items[1..])
  }

  /** The item is the first with a fault: a failed read, no bytes, unexpected bytes, or too many of them. */
  ghost predicate FailsAt(items: seq<Item>, k: nat, limit: nat, expectEmpty: bool, received: nat, fault: Fault) {
    && k < |items| && (forall j :: 0 <= j < k ==> IsTaken(items[j], expectEmpty))
    && received + Total(items[..k]) <= limit
    && match fault
       case ReadFailed => items[k].Broken?
       case InvalidResponse => items[k].NotBytes? || (items[k].Chunk? && !IsTaken(items[k], expectEmpty))
       case ResponseTooLarge => IsTaken(items[k], expectEmpty) && received + Total(items[..k]) + Size(items[k]) > limit
  }

  lemma FailsOneLater(items: seq<Item>, k: nat, limit: nat, expectEmpty: bool, received: nat, fault: Fault)
    requires items != [] && IsTaken(items[0], expectEmpty) && received + Size(items[0]) <= limit
    ensures FailsAt(items, k + 1, limit, expectEmpty, received, fault)
       <==> FailsAt(items[1..], k, limit, expectEmpty, received + Size(items[0]), fault)
    ensures !FailsAt(items, 0, limit, expectEmpty, received, fault)
  {
    if k < |items| - 1 {
      assert items[..k + 1][1..] == items[1..][..k];
      assert Total(items[..k + 1]) == Size(items[0]) + Total(items[1..][..k]);
      assert items[1..][k] == items[k + 1];
      if forall j :: 0 <= j < k ==> IsTaken(items[1..][j], expectEmpty) {
        forall j | 0 <= j < k + 1 ensures IsTaken(items[j], expectEmpty) {
          assert j > 0 ==> items[j] == items[1..][j - 1];
        }
      }
      if forall j :: 0 <= j < k + 1 ==> IsTaken(items[j], expectEmpty) {
        forall j | 0 <= j < k ensures IsTaken(items[1..][j], expectEmpty) {
          assert items[1..][j] == items[j + 1];
        }
      }
    }
  }

  /** A body fails exactly with the fault of the first item that has one. */
  lemma {:induction false} BodyFailsAtFirstFault(items: seq<Item>, limit: nat, expectEmpty: bool, received: nat,
                                                 fault: Fault)
    requires received <= limit
    ensures Body(items, limit, expectEmpty, received) == Err(fault) <==>
              exists k: nat :: FailsAt(items, k, limit, expectEmpty, received, fault)
    decreases items
  {
    if items != [] {
      if IsTaken(items[0], expectEmpty) && received + Size(items[0]) <= limit {
        hide FailsAt;
        var (rest, more) := (items[1..], received + Size(items[0]));
        BodyFailsAtFirstFault(rest, limit, expectEmpty, more, fault);
        if k: nat :| FailsAt(rest, k, limit, expectEmpty, more, fault) {
          FailsOneLater(items, k, limit, expectEmpty, received, fault);
        }
        if k: nat :| FailsAt(items, k, limit, expectEmpty, received, fault) {
          FailsOneLater(items, 0, limit, expectEmpty, received, fault);
          assert k > 0;
          FailsOneLater(items, k - 1, limit, expectEmpty, received, fault);
        }
      } else {
        FailsFirst(items, limit, expectEmpty, received, fault);
      }
    }
  }

  lemma FailsFirst(items: seq<Item>, limit: nat, expectEmpty: bool, received: nat, fault: Fault)
    requires items != [] && received <= limit
    requires !(IsTaken(items[0], expectEmpty) && received + Size(items[0]) <= limit)
    ensures (exists k: nat :: FailsAt(items, k, limit, expectEmpty, received, fault))
       <==> FailsAt(items, 0, limit, expectEmpty, received, fault)
    ensures Body(items, limit, expectEmpty, received) == Err(fault)
       <==> FailsAt(items, 0, limit, expectEmpty, received, fault)
  {
    assert items[..0] == [];
    forall k | 0 < k <= |items| ensures Total(items[..k]) >= Size(items[0]) {
      assert items[..k][0] == items[0];
    }
  }
}
