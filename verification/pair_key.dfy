/** The (deprecated) registry of lock objects for unordered pairs of account
    ids: a key for (a, b) is equal to the key for (b, a), so both orders of a
    transfer between the same two accounts get the same lock object. */
module PairKey {
  import opened Errors
  import opened Store

  /** A key for two boxed ids. */
  datatype Key = Key(id1: Int32, id2: Int32)

  /** The argument of `equals`: null, another key, or an object of some other class. */
  datatype Obj = Null | KeyObj(key: Key) | OtherObj

  /** `equals`: only a key can be equal to a key, and then exactly when the two
      hold the same ids in either order, i.e. the same multiset of ids. */
  function Equals(k: Key, o: Obj): (r: bool)
    ensures r <==> o.KeyObj? && multiset{k.id1, k.id2} == multiset{o.key.id1, o.key.id2}
  {
    if o.Null? then false
    else if o.KeyObj? then
      var other := o.key;
      assert multiset{k.id1, k.id2} == multiset{other.id1, other.id2} ==>
               (k.id1 == other.id1 && k.id2 == other.id2) || (k.id1 == other.id2 && k.id2 == other.id1) by {
        if multiset{k.id1, k.id2} == multiset{other.id1, other.id2} {
          assert k.id1 in multiset{other.id1, other.id2};
          if k.id1 == other.id1 {
            assert multiset{k.id1, k.id2} - multiset{k.id1} == multiset{k.id2};
            assert multiset{other.id1, other.id2} - multiset{other.id1} == multiset{other.id2};
          } else {
            assert multiset{k.id1, k.id2} - multiset{k.id1} == multiset{k.id2};
            assert multiset{other.id1, other.id2} - multiset{other.id2} == multiset{other.id1};
          }
        }
      }
      (k.id1 == other.id1 && k.id2 == other.id2) || (k.id1 == other.id2 && k.id2 == other.id1)
    else false
  }

  /** `hashCode`: the sum of the two ids' hashes, with Java int wrap-around. */
  function HashCode(k: Key): (h: Int32)
    ensures (h - (k.id1 + k.id2)) % 0x1_0000_0000 == 0
    ensures INT_MIN <= k.id1 + k.id2 <= INT_MAX ==> h == k.id1 + k.id2
  {
    Wrap32(k.id1 + k.id2)
  }

  /** `equals` is an equivalence relation on keys and treats both orders alike. */
  lemma EqualsIsEquivalence(a: Key, b: Key, c: Key)
    ensures Equals(a, KeyObj(a))
    ensures Equals(a, KeyObj(b)) ==> Equals(b, KeyObj(a))
    ensures Equals(a, KeyObj(b)) && Equals(b, KeyObj(c)) ==> Equals(a, KeyObj(c))
    ensures Equals(Key(a.id1, a.id2), KeyObj(Key(a.id2, a.id1)))
  {
  }

  /** The contract between `equals` and `hashCode` holds: equal keys hash alike,
      so a hash map finds a key under either order of its ids. */
  lemma EqualKeysEqualHashes(a: Key, b: Key)
    requires Equals(a, KeyObj(b))
    ensures HashCode(a) == HashCode(b)
  {
  }

  /** `hashCode` does not depend on the order of the ids, wrap-around included. */
  lemma HashOrderIndependent(a: Int32, b: Int32)
    ensures HashCode(Key(a, b)) == HashCode(Key(b, a))
  {
  }

  /** The registry's keys; no two of them are equal. */
  predicate NoDuplicates(reg: seq<Key>)
  {
    forall i, j :: 0 <= i < j < |reg| ==> !Equals(reg[i], KeyObj(reg[j]))
  }

  /** The position of the registered key equal to `k`, if any. Because equal keys
      hash alike, searching by equality alone finds what the hash map finds. */
  function Find(reg: seq<Key>, k: Key): (r: Option<nat>)
    ensures r.Some? ==> r.value < |reg| && Equals(k, KeyObj(reg[r.value]))
    ensures r.None? <==> forall i :: 0 <= i < |reg| ==> !Equals(k, KeyObj(reg[i]))
  {
    if |reg| == 0 then None
    else if Equals(k, KeyObj(reg[0])) then Some(0)
    else
      match Find(reg[1..], k)
      case None => None
      case Some(i) => Some(i + 1)
  }

  /** The result of `getMutex`: the lock object handed out and the registry after the call. */
  datatype Got = Got(out: Outcome<Key>, registry: seq<Key>)

  /** `getMutex(id1, id2)`: a null id raises a NullPointerException; otherwise the
      registered key equal to (id1, id2) is returned, or (id1, id2) itself is
      registered and returned. */
  function GetMutex(reg: seq<Key>, id1: Option<Int32>, id2: Option<Int32>): (r: Got)
    ensures id1.None? || id2.None? ==> r.out == Threw(NullPointer) && r.registry == reg
    ensures id1.Some? && id2.Some? ==>
              && r.out.Returned?
              && Equals(Key(id1.value, id2.value), KeyObj(r.out.value))
              && r.out.value in r.registry
              && (r.registry == reg <==> exists i :: 0 <= i < |reg| && Equals(Key(id1.value, id2.value), KeyObj(reg[i])))
              && (r.registry != reg ==> r.registry == reg + [Key(id1.value, id2.value)]
                                        && r.out.value == Key(id1.value, id2.value))
    ensures NoDuplicates(reg) ==> NoDuplicates(r.registry)
  {
    if id1.None? || id2.None? then Got(Threw(NullPointer), reg)
    else
      var key := Key(id1.value, id2.value);
      match Find(reg, key)
      case Some(i) => Got(Returned(reg[i]), reg)
      case None =>
        var reg' := reg + [key];
        assert reg' != reg by { assert |reg'| != |reg|; }
        assert NoDuplicates(reg) ==> NoDuplicates(reg') by {
          if NoDuplicates(reg) {
            forall i, j | 0 <= i < j < |reg'|
              ensures !Equals(reg'[i], KeyObj(reg'[j]))
            {
              if j == |reg| {
                assert !Equals(key, KeyObj(reg[i]));
                EqualsIsEquivalence(key, reg[i], key);
              }
            }
          }
        }
        Got(Returned(key), reg')
  }

  /** Asking for (b, a) after (a, b) hands out the same lock object and leaves
      the registry as the first call left it. */
  lemma SwappedIdsSameMutex(reg: seq<Key>, a: Int32, b: Int32)
    requires NoDuplicates(reg)
    ensures var first := GetMutex(reg, Some(a), Some(b));
            var second := GetMutex(first.registry, Some(b), Some(a));
            second == Got(first.out, first.registry)
  {
  }
}
