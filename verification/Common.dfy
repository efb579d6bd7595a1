/** Vocabulary shared by every component: fixed-width integers, options, path separators and ordered sets of keys. */
module Common {

  datatype Option<+T> = None | Some(value: T)

  const TWO32: nat := 0x1_0000_0000
  const TWO64: nat := 0x1_0000_0000_0000_0000

  type byte = x: int | 0 <= x < 0x100
  type uint16 = x: int | 0 <= x < 0x1_0000
  type uint32 = x: int | 0 <= x < 0x1_0000_0000
  type uint64 = x: int | 0 <= x < 0x1_0000_0000_0000_0000

  predicate IsSeparator(c: char) {
    c == '/' || c == '\\'
  }

  ghost predicate NoDuplicates<T>(s: seq<T>) {
    forall i, j | 0 <= i < j < |s| :: s[i] != s[j]
  }

  ghost predicate IsLeast(k: int, keys: set<int>) {
    k in keys && forall j | j in keys :: k <= j
  }

  lemma EmptyIfNoMember(keys: set<int>)
    ensures (forall k :: k !in keys) ==> keys == {}
  {
    if forall k :: k !in keys {
      assert keys == {};
    }
  }

  /** A `std::map` walk starts at the least key, so there has to be one. */
  lemma {:induction false} HasLeast(keys: set<int>)
    requires keys != {}
    ensures exists k :: IsLeast(k, keys)
    decreases |keys|
  {
    EmptyIfNoMember(keys);
    var x :| x in keys;
    var rest := keys - {x};
    assert forall j | j in keys :: j == x || j in rest;
    if rest == {} {
      assert IsLeast(x, keys);
    } else {
      HasLeast(rest);
      var y :| IsLeast(y, rest);
      assert IsLeast(if x < y then x else y, keys);
    }
  }

  ghost function Least(keys: set<int>): (k: int)
    requires keys != {}
    ensures IsLeast(k, keys)
  {
    HasLeast(keys);
    var k :| IsLeast(k, keys);
    k
  }

  /** One step of a `std::map` walk: the next key in ascending order. */
  method NextKey(keys: set<int>) returns (k: int)
    requires keys != {}
    ensures k == Least(keys) && IsLeast(k, keys)
  {
    HasLeast(keys);
    k :| k in keys && forall j | j in keys :: k <= j;
  }
}
