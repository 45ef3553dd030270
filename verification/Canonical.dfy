/** Length-prefixed fields: the framing `append_canonical_field` writes, a reader for it, and the
    fact that the reader recovers every field list. */
module Canonical {
  import opened Wrappers
  import opened Text

  const COLON: byte := 58

  function Frame(field: seq<byte>): seq<byte> {
    Digits(|field|) + [COLON] + field
  }

  function Frames(fields: seq<seq<byte>>): seq<byte> {
    if fields == [] then [] else Frame(fields[0]) + Frames(fields[1..])
  }

  /** The number of digits at the head of `b`. */
  function DigitRun(b: seq<byte>): (n: nat)
    ensures n <= |b|
  {
    if b != [] && IsDigit(b[0]) then 1 + DigitRun(b[1..]) else 0
  }

  /** Reads one field and returns it with the unread rest. */
  function ReadField(b: seq<byte>): Option<(seq<byte>, seq<byte>)> {
    var k := DigitRun(b);
    if k == |b| || b[k] != COLON then None
    else
      var len, rest := DigitsValue(b[..k]), b[k + 1..];
      if 0 <= len <= |rest| then Some((rest[..len], rest[len..])) else None
  }

  function ReadFields(b: seq<byte>): Option<seq<seq<byte>>>
    decreases |b|
  {
    if b == [] then Some([])
    else match ReadField(b)
      case None => None
      case Some((field, rest)) =>
        if |rest| < |b| then
          match ReadFields(rest)
          case None => None
          case Some(fields) => Some([field] + fields)
        else None
  }

  lemma {:induction false} DigitRunStops(digits: seq<byte>, rest: seq<byte>)
    requires forall i :: 0 <= i < |digits| ==> IsDigit(digits[i])
    ensures DigitRun(digits + [COLON] + rest) == |digits|
  {
    var b := digits + [COLON] + rest;
    if digits != [] {
      DigitRunStops(digits[1..], rest);
      assert b[1..] == digits[1..] + [COLON] + rest;
    }
  }

  lemma ReadFrame(field: seq<byte>, rest: seq<byte>)
    ensures ReadField(Frame(field) + rest) == Some((field, rest))
  {
    var d := Digits(|field|);
    var b := Frame(field) + rest;
    assert b == d + [COLON] + (field + rest);
    DigitRunStops(d, field + rest);
    DigitsRoundTrip(|field|);
    assert b[..|d|] == d && b[|d|] == COLON && b[|d| + 1..] == field + rest;
  }

  /** Reading undoes framing, for every list of fields whatever bytes they hold. */
  lemma {:induction false} FramesRoundTrip(fields: seq<seq<byte>>)
    ensures ReadFields(Frames(fields)) == Some(fields)
  {
    if fields != [] {
      ReadFrame(fields[0], Frames(fields[1..]));
      FramesRoundTrip(fields[1..]);
      assert |Frame(fields[0])| > 0;
      assert fields == [fields[0]] + fields[1..];
    }
  }

  lemma FramesInjective(xs: seq<seq<byte>>, ys: seq<seq<byte>>)
    requires Frames(xs) == Frames(ys)
    ensures xs == ys
  {
    hide Frames;
    FramesRoundTrip(xs);
    FramesRoundTrip(ys);
  }

  lemma {:induction false} FramesAppend(xs: seq<seq<byte>>, ys: seq<seq<byte>>)
    ensures Frames(xs + ys) == Frames(xs) + Frames(ys)
  {
    if xs == [] {
      assert xs + ys == ys;
    } else {
      assert (xs + ys)[1..] == xs[1..] + ys;
      FramesAppend(xs[1..], ys);
    }
  }

  /** The byte vector the hash input is collected in, with the fields written to it so far. */
  class ByteBuffer {
    var bytes: seq<byte>
    ghost var fields: seq<seq<byte>>

    ghost predicate Valid()
      reads this
    {
      bytes == Frames(fields)
    }

    constructor ()
      ensures Valid() && fields == []
    {
      bytes := [];
      fields := [];
    }

    method AppendCanonicalField(value: seq<byte>)
      requires Valid()
      modifies this
      ensures Valid() && fields == old(fields) + [value]
    {
      FramesAppend(fields, [value]);
      assert Frames([value]) == Frame(value);
      bytes := bytes + Digits(|value|);
      bytes := bytes + [COLON];
      bytes := bytes + value;
      fields := fields + [value];
    }
  }
}
