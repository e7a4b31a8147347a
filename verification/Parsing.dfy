/** Parsers as functions of the bytes not yet read, and what makes one exact. */
module Parsing {
  import opened Results
  import opened Bytes

  /** What a parser makes of a byte string: a value and the bytes it leaves, or a refusal. */
  type Parsed<T, E> = Result<(T, seq<byte>), E>

  ghost predicate Reads<T, E>(one: seq<byte> -> Parsed<T, E>, s: seq<byte>, x: T, rest: seq<byte>) {
    one(s) == Ok((x, rest))
  }

  ghost predicate Spells<T>(enc: T -> seq<byte>, ok: T -> bool, s: seq<byte>, x: T, rest: seq<byte>) {
    ok(x) && s == enc(x) + rest
  }

  /** `one` accepts exactly the encodings of the values `ok` allows, and leaves what follows them. */
  ghost predicate Exact<T(!new), E>(one: seq<byte> -> Parsed<T, E>, enc: T -> seq<byte>, ok: T -> bool) {
    forall s, x, rest :: Reads(one, s, x, rest) <==> Spells(enc, ok, s, x, rest)
  }

  /** `one`, `n` times over. */
  function Many<T, E>(one: seq<byte> -> Parsed<T, E>, s: seq<byte>, n: nat): (r: Parsed<seq<T>, E>)
    ensures r.Ok? ==> |r.value.0| == n
    decreases n
  {
    if n == 0 then Ok(([], s)) else
    var (x, rest) :- one(s);
    var (xs, rest') :- Many(one, rest, n - 1);
    Ok(([x] + xs, rest'))
  }

  function EncodeAll<T>(enc: T -> seq<byte>, xs: seq<T>): (s: seq<byte>) {
    if xs == [] then [] else enc(xs[0]) + EncodeAll(enc, xs[1..])
  }

  lemma Assoc(a: seq<byte>, b: seq<byte>, c: seq<byte>)
    ensures a + b + c == a + (b + c)
  {
  }

  /** A list of items is read back exactly when its items are. */
  lemma {:induction false} ManyExact<T(!new), E>(one: seq<byte> -> Parsed<T, E>, enc: T -> seq<byte>, ok: T -> bool,
                                     s: seq<byte>, xs: seq<T>, rest: seq<byte>)
    requires Exact(one, enc, ok)
    ensures Many(one, s, |xs|) == Ok((xs, rest)) <==> (forall x <- xs :: ok(x)) && s == EncodeAll(enc, xs) + rest
    decreases |xs|
  {
    if xs == [] {
      assert EncodeAll(enc, xs) + rest == rest;
    } else {
      var mid := EncodeAll(enc, xs[1..]) + rest;
      Assoc(enc(xs[0]), EncodeAll(enc, xs[1..]), rest);
      assert xs == [xs[0]] + xs[1..];
      ManyExact(one, enc, ok, mid, xs[1..], rest);
      assert Reads(one, s, xs[0], mid) <==> Spells(enc, ok, s, xs[0], mid);
      if Many(one, s, |xs|) == Ok((xs, rest)) {
        var (x, after) := one(s).value;
        assert Many(one, after, |xs| - 1) == Ok((xs[1..], rest)) by {
          var (tail, end) := Many(one, after, |xs| - 1).value;
          assert ([x] + tail)[1..] == tail;
        }
        assert Reads(one, s, x, after);
        assert Spells(enc, ok, s, x, after);
        ManyExact(one, enc, ok, after, xs[1..], rest);
      }
    }
  }

  /** A refusal of the list is a refusal of some item. */
  lemma {:induction false} ManyRefusal<T, E(!new)>(one: seq<byte> -> Parsed<T, E>, s: seq<byte>, n: nat, e: E)
    requires forall t :: one(t) != Err(e)
    ensures Many(one, s, n) != Err(e)
    decreases n
  {
    if n > 0 && one(s).Ok? {
      ManyRefusal(one, one(s).value.1, n - 1, e);
    }
  }

  /** What a reading step must return and leave, when the bytes ahead parse as `parsed`. */
  ghost predicate Follows<T, E>(r: Result<T, E>, rest: seq<byte>, parsed: Parsed<T, E>) {
    match parsed
    case Ok((value, after)) => r == Ok(value) && rest == after
    case Err(why) => r == Err(why)
  }

  /** A parse of the items still to come, with those already read put in front. */
  ghost function Prefixed<T, E>(out: seq<T>, parsed: Parsed<seq<T>, E>): (r: Parsed<seq<T>, E>) {
    match parsed
    case Ok((items, rest)) => Ok((out + items, rest))
    case Err(why) => Err(why)
  }

  lemma PrefixedNone<T, E>(parsed: Parsed<seq<T>, E>)
    ensures Prefixed([], parsed) == parsed
  {
    if parsed.Ok? {
      assert [] + parsed.value.0 == parsed.value.0;
    }
  }

  /** Reading one more item moves it from the parse to come into the items read. */
  lemma PrefixedStep<T, E>(out: seq<T>, one: seq<byte> -> Parsed<T, E>, s: seq<byte>, n: nat)
    requires n > 0
    ensures match one(s)
            case Ok((x, rest)) => Prefixed(out, Many(one, s, n)) == Prefixed(out + [x], Many(one, rest, n - 1))
            case Err(why) => Prefixed(out, Many(one, s, n)) == Err(why)
  {
    if one(s).Ok? {
      var (x, rest) := one(s).value;
      if Many(one, rest, n - 1).Ok? {
        var items := Many(one, rest, n - 1).value.0;
        assert out + ([x] + items) == out + [x] + items;
      }
    }
  }
}
