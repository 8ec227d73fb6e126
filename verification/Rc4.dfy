/** The RC4 cipher of ntlm.cpp. */
module Rc4 {
  import opened Bytes

  /** s_box_, i_ and j_ */
  datatype State = State(box: seq<Byte>, i: nat, j: nat)

  function Identity(): (box: seq<Byte>)
    ensures |box| == 256
  {
    seq(256, k requires 0 <= k < 256 => k)
  }

  /** Every byte 0..255 exactly once. */
  ghost predicate IsPermutation(box: seq<Byte>) {
    multiset(box) == multiset(Identity())
  }

  ghost predicate Good(s: State) {
    |s.box| == 256 && IsPermutation(s.box) && s.i < 256 && s.j < 256
  }

  function Swap(box: seq<Byte>, m: nat, n: nat): (r: seq<Byte>)
    requires m < |box| && n < |box|
    ensures |r| == |box|
  {
    box[m := box[n]][n := box[m]]
  }

  lemma SwapKeepsPermutation(box: seq<Byte>, m: nat, n: nat)
    requires IsPermutation(box) && m < |box| && n < |box|
    ensures IsPermutation(Swap(box, m, n))
  {
  }

  // ----- key scheduling -----

  /** The box and j after the first `n` turns of key scheduling. */
  function Schedule(key: seq<Byte>, n: nat): (r: (seq<Byte>, nat))
    requires key != [] && n <= 256
    ensures |r.0| == 256 && r.1 < 256
  {
    if n == 0 then (Identity(), 0)
    else
      var (box, j) := Schedule(key, n - 1);
      var j' := (j + (box[n - 1] as int) + (key[(n - 1) % |key|] as int)) % 256;
      (Swap(box, n - 1, j'), j')
  }

  function Init(key: seq<Byte>): State
    requires key != []
  {
    State(Schedule(key, 256).0, 0, 0)
  }

  lemma {:induction false} ScheduleIsPermutation(key: seq<Byte>, n: nat)
    requires key != [] && n <= 256
    ensures IsPermutation(Schedule(key, n).0)
  {
    if n > 0 {
      ScheduleIsPermutation(key, n - 1);
      SwapKeepsPermutation(Schedule(key, n - 1).0, n - 1, Schedule(key, n).1);
    }
  }

  // ----- the key stream -----

  function Advance(s: State): (t: State)
    requires |s.box| == 256
    ensures |t.box| == 256 && t.i < 256 && t.j < 256
  {
    var i := (s.i + 1) % 256;
    var j := (s.j + (s.box[i] as int)) % 256;
    State(Swap(s.box, i, j), i, j)
  }

  /** The byte that a state just advanced to contributes. */
  function KeyByte(s: State): bv8
    requires |s.box| == 256 && s.i < 256 && s.j < 256
  {
    s.box[((s.box[s.i] as int) + (s.box[s.j] as int)) % 256] as bv8
  }

  function Xor(x: bv8, k: bv8): bv8 {
    x ^ k
  }

  /** The state after `data` has been encrypted, and the result. */
  function Encrypt(s: State, data: seq<bv8>): (r: (State, seq<bv8>))
    requires |s.box| == 256
    ensures |r.0.box| == 256 && |r.1| == |data|
    decreases |data|
  {
    if data == [] then (s, [])
    else
      var t := Advance(s);
      var (last, rest) := Encrypt(t, data[1..]);
      (last, [Xor(data[0], KeyByte(t))] + rest)
  }

  lemma {:induction false} EncryptKeepsGood(s: State, data: seq<bv8>)
    requires Good(s)
    ensures Good(Encrypt(s, data).0)
    decreases |data|
  {
    if data != [] {
      SwapKeepsPermutation(s.box, (s.i + 1) % 256, Advance(s).j);
      EncryptKeepsGood(Advance(s), data[1..]);
    }
  }

  lemma XorTwice(x: bv8, k: bv8)
    ensures Xor(Xor(x, k), k) == x
  {
    assert Xor(x ^ k, k) == x;
  }

  lemma EncryptUnfolds(s: State, data: seq<bv8>)
    requires |s.box| == 256 && data != []
    ensures var t := Advance(s);
            Encrypt(s, data) == (Encrypt(t, data[1..]).0, [Xor(data[0], KeyByte(t))] + Encrypt(t, data[1..]).1)
  {
    hide Advance;
    hide Xor;
    hide KeyByte;
  }

  /** Decryption is encryption again: from the same state, encrypting the result gives the data back. */
  lemma {:induction false} EncryptTwice(s: State, data: seq<bv8>)
    requires |s.box| == 256
    ensures Encrypt(s, Encrypt(s, data).1) == (Encrypt(s, data).0, data)
    decreases |data|
  {
    hide Xor;
    hide KeyByte;
    hide Advance;
    if data != [] {
      var t := Advance(s);
      EncryptTwice(t, data[1..]);
      XorTwice(data[0], KeyByte(t));
      var once := Encrypt(s, data).1;
      assert once[1..] == Encrypt(t, data[1..]).1 && once[0] == Xor(data[0], KeyByte(t));
      EncryptUnfolds(s, once);
      assert [data[0]] + data[1..] == data;
    }
  }

  /** Encrypting in pieces is encrypting the whole. */
  lemma {:induction false} EncryptConcat(s: State, a: seq<bv8>, b: seq<bv8>)
    requires |s.box| == 256
    ensures var (t, x) := Encrypt(s, a);
            Encrypt(s, a + b) == (Encrypt(t, b).0, x + Encrypt(t, b).1)
    decreases |a|
  {
    hide Xor;
    hide KeyByte;
    hide Advance;
    if a == [] {
      assert a + b == b;
      assert [] + Encrypt(s, b).1 == Encrypt(s, b).1;
    } else {
      assert (a + b)[1..] == a[1..] + b && (a + b)[0] == a[0];
      var t := Advance(s);
      EncryptConcat(t, a[1..], b);
      var head, rest, tail := [Xor(a[0], KeyByte(t))], Encrypt(t, a[1..]).1, Encrypt(Encrypt(t, a[1..]).0, b).1;
      assert head + (rest + tail) == (head + rest) + tail;
    }
  }

  lemma ScheduleTurn(key: seq<Byte>, n: nat)
    requires key != [] && n < 256
    ensures var (box, j) := Schedule(key, n);
            var j' := (j + (box[n] as int) + (key[n % |key|] as int)) % 256;
            Schedule(key, n + 1) == (Swap(box, n, j'), j')
  {
  }

  // ----- a known answer -----

  /** The box while the key 01 is scheduled: every turn swaps the entry 0 with its neighbour. */
  lemma {:induction false} ScheduleOfOne(n: nat)
    requires n <= 255
    ensures var (box, j) := Schedule([1], n);
            && j == n && box[n] == 0
            && (forall k :: 0 <= k < n ==> box[k] == k + 1) && (forall k :: n < k < 256 ==> box[k] == k)
  {
    if n > 0 {
      ScheduleOfOne(n - 1);
    }
  }

  lemma ScheduledOne()
    ensures var box := Schedule([1], 256).0;
            box[0] == 0 && box[255] == 1 && forall k :: 1 <= k <= 254 ==> box[k] == k + 1
  {
    hide Schedule;
    hide Swap;
    ScheduleOfOne(255);
    ScheduleTurn([1], 255);
    LastTurnOfOne(Schedule([1], 255).0);
  }

  lemma LastTurnOfOne(box: seq<Byte>)
    requires |box| == 256 && box[255] == 0 && forall k :: 0 <= k < 255 ==> box[k] == k + 1
    ensures var last := Swap(box, 255, 0);
            last[0] == 0 && last[255] == 1 && forall k :: 1 <= k <= 254 ==> last[k] == k + 1
  {
  }

  lemma TurnTo(key: seq<Byte>, n: nat, box: seq<Byte>, j: nat)
    requires key != [] && n < 256 && Schedule(key, n) == (box, j)
    ensures var j' := (j + (box[n] as int) + (key[n % |key|] as int)) % 256;
            Schedule(key, n + 1) == (Swap(box, n, j'), j')
  {
    hide Schedule;
    hide Swap;
    ScheduleTurn(key, n);
  }

  /** The first turns with a key of three bytes, which is used over and over. */
  lemma ScheduleOfThree()
    ensures var (box, j) := Schedule([1, 2, 3], 4);
            j == 9 && box[..12] == [1, 3, 8, 9, 4, 5, 6, 7, 2, 0, 10, 11]
  {
    hide Schedule;
    var key, box := [1, 2, 3], Identity();
    NoTurns(key);
    TurnTo(key, 0, box, 0);
    TurnTo(key, 1, Swap(box, 0, 1), 1);
    TurnTo(key, 2, Swap(Swap(box, 0, 1), 1, 3), 3);
    TurnTo(key, 3, Swap(Swap(Swap(box, 0, 1), 1, 3), 2, 8), 8);
  }

  lemma NoTurns(key: seq<Byte>)
    requires key != []
    ensures Schedule(key, 0) == (Identity(), 0)
  {
  }

  /** One turn, from the two entries that it swaps and the one that it selects. */
  lemma TurnIs(s: State, a: Byte, b: Byte, k: Byte)
    requires |s.box| == 256 && s.i < 255 && s.j + a < 256 && s.i + 1 != s.j + a
    requires s.box[s.i + 1] == a && s.box[s.j + a] == b && a + b < 256
    requires a + b != s.i + 1 && a + b != s.j + a && s.box[a + b] == k
    ensures Advance(s) == State(s.box[s.i + 1 := b][s.j + a := a], s.i + 1, s.j + a)
    ensures KeyByte(Advance(s)) == k as bv8
  {
  }

  lemma ThreeBytes(s: State, t: State, u: State, v: State, x: bv8, y: bv8, z: bv8)
    requires |s.box| == |t.box| == |u.box| == 256 && t == Advance(s) && u == Advance(t) && v == Advance(u)
    ensures Encrypt(s, [x, y, z]).1 == [Xor(x, KeyByte(t)), Xor(y, KeyByte(u)), Xor(z, KeyByte(v))]
  {
    hide Xor;
    hide Advance;
    hide KeyByte;
    EncryptUnfolds(s, [x, y, z]);
    EncryptUnfolds(t, [y, z]);
    EncryptUnfolds(u, [z]);
    assert [x, y, z][1..] == [y, z] && [y, z][1..] == [z] && [z][1..] == [];
    assert Encrypt(v, []).1 == [];
  }

  /** The key stream of the key 01 starts with 06, 08, 0E. */
  lemma KnownAnswer(x: bv8, y: bv8, z: bv8)
    ensures Encrypt(Init([1]), [x, y, z]).1 == [Xor(x, 0x06), Xor(y, 0x08), Xor(z, 0x0E)]
  {
    hide Schedule;
    hide Xor;
    hide Advance;
    hide KeyByte;
    hide Encrypt;
    ScheduledOne();
    var s := Init([1]);
    var t, u, v := Advance(s), Advance(Advance(s)), Advance(Advance(Advance(s)));
    TurnIs(s, 2, 3, 6);
    TurnIs(t, 2, 5, 8);
    TurnIs(u, 4, 9, 14);
    ThreeBytes(s, t, u, v, x, y, z);
  }

  /** std::swap of two entries */
  method SwapIn(box: array<Byte>, m: nat, n: nat)
    requires m < box.Length && n < box.Length
    modifies box
    ensures box[..] == Swap(old(box[..]), m, n)
  {
    box[m], box[n] := box[n], box[m];
  }

  /** The key-scheduling loop. */
  method ScheduleKey(box: array<Byte>, key: seq<Byte>)
    requires box.Length == 256 && box[..] == Identity() && key != []
    modifies box
    ensures box[..] == Schedule(key, 256).0
  {
    var j := 0;
    assert (box[..], j) == Schedule(key, 0);
    hide Schedule;
    for n := 0 to 256
      invariant (box[..], j) == Schedule(key, n)
    {
      ScheduleTurn(key, n);
      j := (j + (box[n] as int) + (key[n % |key|] as int)) % 256;
      SwapIn(box, n, j);
    }
  }

  // ----- the class -----

  class Rc4 {
    const sBox: array<Byte>
    var i: nat
    var j: nat

    ghost predicate Valid()
      reads this, sBox
    {
      sBox.Length == 256 && Good(View())
    }

    ghost function View(): State
      reads this, sBox
    {
      State(sBox[..], i, j)
    }

    /** An empty key is not allowed: the code takes the index modulo the key's size. */
    constructor (key: seq<Byte>)
      requires key != []
      ensures Valid() && View() == Init(key) && fresh(sBox)
    {
      sBox := new Byte[256];
      i, j := 0, 0;
      new;
      for n := 0 to 256
        invariant i == 0 && j == 0
        invariant forall k :: 0 <= k < n ==> sBox[k] == k
      {
        sBox[n] := n;
      }
      assert sBox[..] == Identity();
      ScheduleKey(sBox, key);
      ScheduleIsPermutation(key, 256);
    }

    /** One turn of the loop in encrypt: the next byte of the key stream. */
    method NextKeyByte() returns (k: bv8)
      requires sBox.Length == 256
      modifies this`i, this`j, sBox
      ensures View() == Advance(old(View())) && k == KeyByte(View())
    {
      i := (i + 1) % 256;
      j := (j + (sBox[i] as int)) % 256;
      SwapIn(sBox, i, j);
      k := sBox[((sBox[i] as int) + (sBox[j] as int)) % 256] as bv8;
    }

    /** encrypt, in place; the buffer is not the cipher's own box. */
    method EncryptInPlace(data: array<bv8>)
      requires Valid() && (data as object) != (sBox as object)
      modifies this`i, this`j, sBox, data
      ensures Valid()
      ensures (View(), data[..]) == Encrypt(old(View()), old(data[..]))
    {
      hide Advance;
      hide KeyByte;
      hide Xor;
      hide Good;
      ghost var s, whole := View(), data[..];
      EncryptKeepsGood(s, whole);
      ghost var done, left: seq<bv8> := [], whole;
      assert [] + Encrypt(s, whole).1 == Encrypt(s, whole).1 && [] + whole == whole;
      GoodIs256(s);
      hide Encrypt;
      var n := 0;
      while n < data.Length
        invariant 0 <= n <= data.Length && sBox.Length == 256
        invariant data[..] == done + left && |done| == n
        invariant Encrypt(s, whole) == (Encrypt(View(), left).0, done + Encrypt(View(), left).1)
      {
        EncryptUnfolds(View(), left);
        var k := NextKeyByte();
        ghost var x, after := Xor(left[0], k), Encrypt(View(), left[1..]);
        Regroup(done, x, after.1);
        ReplaceFirst(done, left, x);
        data[n] := Xor(data[n], k);
        done, left := done + [x], left[1..];
        n := n + 1;
      }
      assert |left| == 0;
      EncryptNothing(View());
      assert done + [] == done;
    }
  }

  lemma Regroup(done: seq<bv8>, x: bv8, rest: seq<bv8>)
    ensures done + ([x] + rest) == (done + [x]) + rest
  {
  }

  lemma ReplaceFirst(done: seq<bv8>, left: seq<bv8>, x: bv8)
    requires left != []
    ensures (done + left)[|done|] == left[0] && (done + left)[|done| := x] == (done + [x]) + left[1..]
  {
  }

  lemma EncryptNothing(s: State)
    requires |s.box| == 256
    ensures Encrypt(s, []) == (s, [])
  {
  }

  lemma GoodIs256(s: State)
    requires Good(s)
    ensures |s.box| == 256
  {
  }

  /** Two fresh ciphers with the same key: what one encrypts the other decrypts, whatever the pieces. */
  method RoundTrip(key: seq<Byte>, data: array<bv8>)
    requires key != []
    modifies data
    ensures data[..] == old(data[..])
  {
    var sender := new Rc4(key);
    var receiver := new Rc4(key);
    sender.EncryptInPlace(data);
    receiver.EncryptInPlace(data);
    EncryptTwice(Init(key), old(data[..]));
  }
}
