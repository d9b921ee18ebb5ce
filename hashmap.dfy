/**
 * The hashmap of data_structures/hashmap: its constructor and its default
 * hash function, the 32-bit string hash of Java's `String.hashCode`.
 */
module Hashmaps {
  import opened Wrappers
  import opened JsArrays

  /** A UTF-16 code unit, what `charCodeAt` returns. */
  type CodeUnit = c: int | 0 <= c < 0x1_0000

  /** A JavaScript string: a sequence of UTF-16 code units. */
  type JsString = seq<CodeUnit>

  const TWO_32: int := 0x1_0000_0000

  /**
   * The ToInt32 conversion of ECMAScript (section 7.1.6 of ECMA-262) on an
   * integer: the value in [-2^31, 2^31) that agrees with `x` modulo 2^32.
   */
  function ToInt32(x: int): (r: int)
    ensures -0x8000_0000 <= r < 0x8000_0000
    ensures (x - r) % TWO_32 == 0
  {
    var m := x % TWO_32;
    if m >= 0x8000_0000 then m - TWO_32 else m
  }

  /** Two integers that agree modulo 2^32 have the same ToInt32. */
  lemma ToInt32Congruent(x: int, y: int)
    requires (x - y) % TWO_32 == 0
    ensures ToInt32(x) == ToInt32(y)
  {
    var k := (x - y) / TWO_32;
    assert x == y + k * TWO_32;
    assert x % TWO_32 == y % TWO_32 by {
      ModAddMultiple(y, k);
    }
  }

  lemma {:induction false} ModAddMultiple(y: int, k: int)
    ensures (y + k * TWO_32) % TWO_32 == y % TWO_32
    decreases if k < 0 then -k else k
  {
    if k > 0 {
      ModAddMultiple(y, k - 1);
      assert y + k * TWO_32 == (y + (k - 1) * TWO_32) + TWO_32;
    } else if k < 0 {
      ModAddMultiple(y, k + 1);
      assert y + k * TWO_32 == (y + (k + 1) * TWO_32) - TWO_32;
    }
  }

  /**
   * The left shift `x << 5` of ECMAScript: ToInt32 of the operand, times 32,
   * wrapped to 32 bits. It agrees with `32 * x` modulo 2^32.
   */
  function ShiftLeft5(x: int): (r: int)
    ensures -0x8000_0000 <= r < 0x8000_0000
    ensures (32 * x - r) % TWO_32 == 0
  {
    CongruentScale(x, ToInt32(x), 32);
    CongruentTrans(32 * x, 32 * ToInt32(x), ToInt32(ToInt32(x) * 32));
    ToInt32(ToInt32(x) * 32)
  }

  /** `x << 0`: ToInt32 alone, which leaves a signed 32-bit value as it is. */
  function ShiftLeft0(x: int): (r: int)
    ensures -0x8000_0000 <= r < 0x8000_0000
    ensures (x - r) % TWO_32 == 0
    ensures -0x8000_0000 <= x < 0x8000_0000 ==> r == x
  {
    ToInt32(x)
  }

  /**
   * One iteration of the hash loop, as the source writes it:
   * `((hash << 5) - hash + c) << 0`. It agrees with `31 * hash + c` modulo 2^32.
   */
  function HashStep(hash: int, c: CodeUnit): (r: int)
    ensures -0x8000_0000 <= r < 0x8000_0000
    ensures (31 * hash + c - r) % TWO_32 == 0
  {
    var s := ShiftLeft5(hash);
    assert (31 * hash + c) - (s - hash + c) == 32 * hash - s;
    CongruentTrans(31 * hash + c, s - hash + c, ShiftLeft0(s - hash + c));
    ShiftLeft0(s - hash + c)
  }

  /** Multiplying both sides keeps two integers congruent modulo 2^32. */
  lemma CongruentScale(a: int, b: int, k: int)
    requires (a - b) % TWO_32 == 0
    ensures (k * a - k * b) % TWO_32 == 0
  {
    var q := (a - b) / TWO_32;
    assert a - b == q * TWO_32;
    assert k * a - k * b == k * (a - b);
    assert k * a - k * b == (k * q) * TWO_32;
    ModAddMultiple(0, k * q);
  }

  /** Congruence modulo 2^32 is transitive. */
  lemma CongruentTrans(a: int, b: int, c: int)
    requires (a - b) % TWO_32 == 0 && (b - c) % TWO_32 == 0
    ensures (a - c) % TWO_32 == 0
  {
    var q1, q2 := (a - b) / TWO_32, (b - c) / TWO_32;
    assert a - c == (q1 + q2) * TWO_32;
    ModAddMultiple(0, q1 + q2);
  }

  /** The loop step is `31 * hash + c` wrapped to 32 bits. */
  lemma HashStepIs31(hash: int, c: CodeUnit)
    ensures HashStep(hash, c) == ToInt32(31 * hash + c)
  {
    var r := HashStep(hash, c);
    ToInt32Congruent(31 * hash + c, r);
    assert ShiftLeft0(r) == r;
  }

  function Pow31(n: nat): int
  {
    if n == 0 then 1 else 31 * Pow31(n - 1)
  }

  /**
   * The documented formula of Java's `String.hashCode` before wrapping:
   * s[0]*31^(n-1) + s[1]*31^(n-2) + ... + s[n-1].
   */
  function HashSum(s: JsString): int
  {
    if s == [] then 0 else s[0] * Pow31(|s| - 1) + HashSum(s[1..])
  }

  /** Java's `String.hashCode`: the formula above, wrapped to a 32-bit integer. */
  function StringHashCode(s: JsString): (h: int)
    ensures -0x8000_0000 <= h < 0x8000_0000
    ensures s == [] ==> h == 0
  {
    ToInt32(HashSum(s))
  }

  /** Appending a code unit multiplies the sum by 31 and adds the unit. */
  lemma {:induction false} HashSumSnoc(s: JsString, c: CodeUnit)
    ensures HashSum(s + [c]) == 31 * HashSum(s) + c
  {
    if s == [] {
      assert s + [c] == [c];
    } else {
      assert (s + [c])[1..] == s[1..] + [c];
      HashSumSnoc(s[1..], c);
      assert Pow31(|s|) == 31 * Pow31(|s| - 1);
    }
  }

  /** The source's loop step takes the hash of a prefix to the hash of the prefix one unit longer. */
  lemma HashStepExtends(s: JsString, c: CodeUnit)
    ensures HashStep(StringHashCode(s), c) == StringHashCode(s + [c])
  {
    var p := HashSum(s);
    HashStepIs31(ToInt32(p), c);
    HashSumSnoc(s, c);
    CongruentScale(p, ToInt32(p), -31);
    assert (31 * ToInt32(p) + c) - (31 * p + c) == -31 * p - -31 * ToInt32(p);
    ToInt32Congruent(31 * ToInt32(p) + c, 31 * p + c);
  }

  /** Java's recurrence: one more code unit takes the hash `h` to `31 * h + c`, wrapped to 32 bits. */
  lemma StringHashCodeRecurrence(s: JsString, c: CodeUnit)
    ensures StringHashCode(s + [c]) == ToInt32(31 * StringHashCode(s) + c)
  {
    HashStepExtends(s, c);
    HashStepIs31(StringHashCode(s), c);
  }

  /**
   * `_default_hash_function(key)`: the loop of the source over the code units
   * of `key`. It computes Java's `String.hashCode` of `key`.
   */
  method DefaultHashFunction(key: JsString) returns (hash: int)
    ensures hash == StringHashCode(key)
  {
    hash := 0;
    var i := 0;
    var len := |key|;
    while i < len
      invariant 0 <= i <= len
      invariant hash == StringHashCode(key[..i])
    {
      assert key[..i + 1] == key[..i] + [key[i]];
      HashStepExtends(key[..i], key[i]);
      hash := HashStep(hash, key[i]);
      i := i + 1;
    }
    assert key[..i] == key;
  }

  /** The errors the constructor throws. */
  datatype HashmapError = InitArrayLengthMismatch | InitArrayTypeMismatch

  function Message(e: HashmapError): (m: string)
    ensures m != []
  {
    match e
    case InitArrayLengthMismatch =>
      "The array of initial_keys must be the same length as the array of initial_values"
    case InitArrayTypeMismatch =>
      "If initial_keys is an array, then initial_values must also be an array"
  }

  /** The two errors are told apart by their messages. */
  lemma MessageInjective(a: HashmapError, b: HashmapError)
    requires Message(a) == Message(b)
    ensures a == b
  {
  }

  /** The constructor's `initial_values` argument, which it checks to be an array. */
  datatype ValuesArg<T> = NotAnArray | AnArray(arr: JsArray<T>)

  class Hashmap<T> {
    var values: JsArray<T>
    var keys: JsArray<JsString>
    /** The private `#hash_function` field. */
    var hashFunction: JsString -> int

    /** The object state after the constructor body. */
    constructor FromParts(values: JsArray<T>, keys: JsArray<JsString>, hashFunction: JsString -> int)
      ensures this.values == values && this.keys == keys && this.hashFunction == hashFunction
    {
      this.values := values;
      this.keys := keys;
      this.hashFunction := hashFunction;
    }

    /**
     * `new Hashmap(initial_values, initial_keys, hash_function)`: throws when
     * `initial_values` is not an array, then when the two arrays differ in
     * length; otherwise the map holds copies of both arrays and the given hash
     * function, or the default one when none is given.
     */
    static method Create(initialValues: ValuesArg<T>, initialKeys: JsArray<JsString>,
                         hashFunction: Option<JsString -> int>)
      returns (r: Result<Hashmap<T>, HashmapError>)
      ensures r.Failure? <==>
                initialValues.NotAnArray? || |initialValues.arr.elements| != |initialKeys.elements|
      ensures r.Failure? ==>
                r.error == if initialValues.NotAnArray? then InitArrayTypeMismatch else InitArrayLengthMismatch
      ensures r.Success? ==>
                var m := r.value;
                fresh(m) && fresh(m.values) && fresh(m.keys) &&
                m.values.elements == initialValues.arr.elements &&
                m.keys.elements == initialKeys.elements &&
                |m.values.elements| == |m.keys.elements|
      ensures r.Success? && hashFunction.Some? ==> r.value.hashFunction == hashFunction.value
      ensures r.Success? && hashFunction.None? ==>
                forall key :: r.value.hashFunction(key) == StringHashCode(key)
    {
      if initialValues.NotAnArray? {
        return Failure(InitArrayTypeMismatch);
      }
      if |initialValues.arr.elements| != |initialKeys.elements| {
        return Failure(InitArrayLengthMismatch);
      }
      var values := new JsArray(initialValues.arr.elements);
      var keys := new JsArray(initialKeys.elements);
      var h := if hashFunction.None? then StringHashCode else hashFunction.value;
      var m := new Hashmap.FromParts(values, keys, h);
      return Success(m);
    }
  }
}
