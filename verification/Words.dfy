/** Machine numbers shared by the other modules. */
module Words {

  /** A `uint8_t` on which the program does arithmetic. */
  type Byte = b: int | 0 <= b < 256

  /** A `uint32_t` millisecond count. */
  type Tick = t: int | 0 <= t < 0x1_0000_0000

  const U32 := 0x1_0000_0000

  /** Unsigned 32-bit addition wraps. */
  function Wrap32(n: nat): Tick { n % U32 }

  function Min(a: int, b: int): int { if a < b then a else b }

  datatype Option<+T> = None | Some(value: T)

  lemma TakeOfSlice<T>(s: seq<T>, from: nat, to: nat, n: nat)
    requires from + n <= to <= |s|
    ensures s[from..to][..n] == s[from..from + n]
  {}

  lemma Associative<T>(x: seq<T>, y: seq<T>, z: seq<T>)
    ensures (x + y) + z == x + (y + z)
  {}

  lemma SliceOfTake<T>(s: seq<T>, t: nat, from: nat, to: nat)
    requires from <= to <= t <= |s|
    ensures s[..t][from..to] == s[from..to]
  {}

  /** Index of the first occurrence of a key, or the number of keys: how the program's tables are
      searched. */
  function IndexOf<K(==)>(keys: seq<K>, key: K): (i: nat)
    ensures i <= |keys|
    ensures i < |keys| ==> keys[i] == key
    ensures forall k | 0 <= k < i :: keys[k] != key
  {
    if keys == [] || keys[0] == key then 0 else 1 + IndexOf(keys[1..], key)
  }

  /** Only one index is the first. */
  lemma IndexIs<K>(keys: seq<K>, key: K, i: nat)
    requires i <= |keys| && (i < |keys| ==> keys[i] == key)
    requires forall k | 0 <= k < i :: keys[k] != key
    ensures IndexOf(keys, key) == i
  {}

  lemma IndexAppend<K>(keys: seq<K>, last: K, key: K)
    ensures IndexOf(keys + [last], key) ==
            if IndexOf(keys, key) < |keys| then IndexOf(keys, key) else if last == key then |keys| else |keys| + 1
  {
    var i := IndexOf(keys, key);
    IndexIs(keys + [last], key, if i < |keys| || last == key then i else i + 1);
  }

  /** A wrapped sum does not depend on whether its first term was wrapped before. */
  lemma WrapSum(t: nat, d: nat)
    ensures Wrap32(Wrap32(t) + d) == Wrap32(t + d)
  {
    var q, r := t / U32, t % U32;
    var k, m := (r + d) / U32, (r + d) % U32;
    ModUnique(t + d, q + k, m);
  }

  lemma ModUnique(n: int, q: int, r: nat)
    requires n == U32 * q + r && r < U32
    ensures n % U32 == r
  {}

  lemma NoWrap(n: nat)
    ensures n < U32 ==> Wrap32(n) == n
  {}

  /** Two true times lie in the same wrap of the tick count. */
  predicate SameWrap(a: nat, b: nat) { a / U32 == b / U32 }

  /** What a deadline armed at the true time `t` for `d` ms makes of a true time `now` less than one wrap later:
      the right thing exactly when the due time and `now` lie in the same wrap of the tick count, and,
      for a deadline that comes out as 0 and so reads as "not armed", as long as nothing is due. */
  lemma DueIff(d: nat, t: nat, now: nat)
    requires t <= now < t + U32 && d < U32
    ensures var deadline := Wrap32(t + d);
            (0 < deadline <= Wrap32(now) <==> now >= t + d)
            <==> if deadline == 0 then now < t + d else SameWrap(t + d, now)
  {
    var due := t + d;
    var q, r := due / U32, due % U32;
    var q', r' := now / U32, now % U32;
    assert due == U32 * q + r && now == U32 * q' + r';
    if q < q' {
      assert q' == q + 1;
    } else if q' < q {
      assert q == q' + 1;
    }
  }
}
