/** Streams of self-delimiting records: writing them one after the other and reading them back one by one. */
module Records {
  import opened Bytes

  /** What a parser finds at the head of a stream: a record and the bytes behind it, or a reason to stop. */
  datatype Found<+T, +S> = Got(item: T, rest: bytes) | Stop(why: S)

  /** The records written from index `count` on. */
  function WriteAll<T>(write: (nat, T) -> bytes, count: nat, items: seq<T>): seq<bytes>
    decreases |items|
  {
    if items == [] then [] else [write(count, items[0])] + WriteAll(write, count + 1, items[1..])
  }

  /** All records up to the first stop. A record that consumes nothing would be read forever; it ends the reading. */
  function ReadAll<T, S>(parse: (nat, bytes) -> Found<T, S>, count: nat, stream: bytes): (seq<T>, Found<T, S>)
    decreases |stream|
  {
    var found := parse(count, stream);
    if found.Got? && |found.rest| < |stream| then
      var more := ReadAll(parse, count + 1, found.rest);
      ([found.item] + more.0, more.1)
    else ([], found)
  }

  /** Parsing undoes writing, whatever follows the record. */
  ghost predicate Inverse<T(!new), S(!new)>(write: (nat, T) -> bytes, parse: (nat, bytes) -> Found<T, S>, ok: T -> bool) {
    forall n: nat, x: T, rest: bytes :: ok(x) ==>
      write(n, x) != [] && parse(n, write(n, x) + rest) == Got(x, rest)
  }

  lemma {:induction false} WriteAppend<T>(write: (nat, T) -> bytes, count: nat, a: seq<T>, b: seq<T>)
    ensures WriteAll(write, count, a + b) == WriteAll(write, count, a) + WriteAll(write, count + |a|, b)
    decreases |a|
  {
    if a == [] {
      assert a + b == b;
    } else {
      assert (a + b)[1..] == a[1..] + b;
      WriteAppend(write, count + 1, a[1..], b);
    }
  }

  /** Reading a written list gives the list, and goes on with whatever follows it. */
  lemma {:induction false} RoundTrip<T(!new), S(!new)>(write: (nat, T) -> bytes, parse: (nat, bytes) -> Found<T, S>, ok: T -> bool,
                                         count: nat, items: seq<T>, rest: bytes)
    requires Inverse(write, parse, ok) && forall i :: 0 <= i < |items| ==> ok(items[i])
    ensures var more := ReadAll(parse, count + |items|, rest);
            ReadAll(parse, count, Flatten(WriteAll(write, count, items)) + rest) == (items + more.0, more.1)
    decreases |items|
  {
    var more := ReadAll(parse, count + |items|, rest);
    if items == [] {
      assert Flatten(WriteAll(write, count, items)) + rest == rest;
      assert [] + more.0 == more.0;
    } else {
      var head, tail := write(count, items[0]), Flatten(WriteAll(write, count + 1, items[1..]));
      WriteFirst(write, count, items, rest);
      RoundTrip(write, parse, ok, count + 1, items[1..], rest);
      ReadFirst(parse, count, head, tail + rest, items[0]);
      FirstAndRest(items, more.0);
    }
  }

  lemma WriteFirst<T>(write: (nat, T) -> bytes, count: nat, items: seq<T>, rest: bytes)
    requires items != []
    ensures Flatten(WriteAll(write, count, items)) + rest
            == write(count, items[0]) + (Flatten(WriteAll(write, count + 1, items[1..])) + rest)
  {
    FlattenCons(write(count, items[0]), WriteAll(write, count + 1, items[1..]));
    Associate(write(count, items[0]), Flatten(WriteAll(write, count + 1, items[1..])), rest);
  }

  lemma FirstAndRest<T>(items: seq<T>, more: seq<T>)
    requires items != []
    ensures [items[0]] + (items[1..] + more) == items + more
  {
  }

  /** A record in front of a stream is read first. */
  lemma ReadFirst<T, S>(parse: (nat, bytes) -> Found<T, S>, count: nat, head: bytes, rest: bytes, item: T)
    requires head != [] && parse(count, head + rest) == Got(item, rest)
    ensures var more := ReadAll(parse, count + 1, rest);
            ReadAll(parse, count, head + rest) == ([item] + more.0, more.1)
  {
  }
}
