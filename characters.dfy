/** The character records the widget lists and selects, and the list
    operations its selection handlers apply to them. Records are compared
    by id only, as the `some` / `filter` callbacks of the component do. */
module Characters {

  /** A search result. The component reads only `id` and `name`; the image
      and the episode list are presentation. */
  datatype Character = Character(id: int, name: string)

  /** `s.some((c) => c.id === id)`: scans the entries in order until one
      has the id. */
  predicate HasId(s: seq<Character>, id: int)
    ensures HasId(s, id) <==> exists i :: 0 <= i < |s| && s[i].id == id
  {
    if s == [] then false
    else if s[0].id == id then true
    else
      assert forall i :: 0 < i < |s| ==> s[i] == s[1..][i - 1];
      HasId(s[1..], id)
  }

  /** No two entries share an id. */
  predicate UniqueIds(s: seq<Character>) {
    forall i, j :: 0 <= i < j < |s| ==> s[i].id != s[j].id
  }

  /** `s.filter((c) => c.id !== id)`. */
  function WithoutId(s: seq<Character>, id: int): (r: seq<Character>)
    ensures |r| <= |s|
    ensures forall x :: x in r <==> x in s && x.id != id
    ensures !HasId(r, id)
  {
    if s == [] then []
    else (if s[0].id == id then [] else [s[0]]) + WithoutId(s[1..], id)
  }

  /** `handleCheckboxChange`: drop every entry with the id when one is
      selected, otherwise put the character in front. */
  function Toggled(s: seq<Character>, c: Character): (r: seq<Character>)
    ensures HasId(r, c.id) <==> !HasId(s, c.id)
  {
    if HasId(s, c.id) then WithoutId(s, c.id)
    else
      assert ([c] + s)[0].id == c.id;
      [c] + s
  }

  /** Selecting the given characters one after another. */
  function ToggledAll(s: seq<Character>, cs: seq<Character>): seq<Character>
    decreases |cs|
  {
    if cs == [] then s else ToggledAll(Toggled(s, cs[0]), cs[1..])
  }

  function Reversed(s: seq<Character>): (r: seq<Character>)
    ensures |r| == |s|
  {
    if s == [] then [] else Reversed(s[1..]) + [s[0]]
  }

  lemma {:induction false} ReversedAt(s: seq<Character>, k: nat)
    requires k < |s|
    ensures Reversed(s)[k] == s[|s| - 1 - k]
  {
    if k < |s| - 1 {
      ReversedAt(s[1..], k);
    }
  }

  /** An id-less list is left as it is by the filter. */
  lemma {:induction false} WithoutAbsentId(s: seq<Character>, id: int)
    requires !HasId(s, id)
    ensures WithoutId(s, id) == s
  {
    if s != [] {
      assert s[0].id != id;
      assert !HasId(s[1..], id) by {
        forall i | 0 <= i < |s[1..]| ensures s[1..][i].id != id {
          assert s[1..][i] == s[i + 1];
        }
      }
      WithoutAbsentId(s[1..], id);
      assert s == [s[0]] + s[1..];
    }
  }

  /** The filter distributes over concatenation, so the entries it keeps
      stay in their original relative order. */
  lemma {:induction false} WithoutIdConcat(a: seq<Character>, b: seq<Character>, id: int)
    ensures WithoutId(a + b, id) == WithoutId(a, id) + WithoutId(b, id)
  {
    if a == [] {
      assert a + b == b;
    } else {
      assert (a + b)[1..] == a[1..] + b;
      WithoutIdConcat(a[1..], b, id);
    }
  }

  /** Removing twice is removing once. */
  lemma WithoutIdIdempotent(s: seq<Character>, id: int)
    ensures WithoutId(WithoutId(s, id), id) == WithoutId(s, id)
  {
    WithoutAbsentId(WithoutId(s, id), id);
  }

  /** A single entry may be put in front of a list with unique ids when its
      id does not occur there. */
  lemma UniqueIdsCons(x: Character, s: seq<Character>)
    ensures UniqueIds([x] + s) <==> UniqueIds(s) && forall y :: y in s ==> y.id != x.id
  {
    var t := [x] + s;
    if UniqueIds(t) {
      forall i, j | 0 <= i < j < |s| ensures s[i].id != s[j].id {
        assert t[i + 1] == s[i] && t[j + 1] == s[j];
      }
      forall y | y in s ensures y.id != x.id {
        var k :| 0 <= k < |s| && s[k] == y;
        assert t[0] == x && t[k + 1] == y;
      }
    }
    if UniqueIds(s) && forall y :: y in s ==> y.id != x.id {
      forall i, j | 0 <= i < j < |t| ensures t[i].id != t[j].id {
        assert t[j] == s[j - 1];
        if i > 0 {
          assert t[i] == s[i - 1];
        } else {
          assert t[j] in s;
        }
      }
    }
  }

  /** Filtering keeps ids unique. */
  lemma {:induction false} WithoutIdKeepsUnique(s: seq<Character>, id: int)
    requires UniqueIds(s)
    ensures UniqueIds(WithoutId(s, id))
  {
    if s != [] {
      assert s == [s[0]] + s[1..];
      UniqueIdsCons(s[0], s[1..]);
      WithoutIdKeepsUnique(s[1..], id);
      if s[0].id != id {
        UniqueIdsCons(s[0], WithoutId(s[1..], id));
      }
    }
  }

  /** Toggling keeps "no two selected entries share an id". */
  lemma ToggledKeepsUnique(s: seq<Character>, c: Character)
    requires UniqueIds(s)
    ensures UniqueIds(Toggled(s, c))
  {
    if HasId(s, c.id) {
      WithoutIdKeepsUnique(s, c.id);
    } else {
      UniqueIdsCons(c, s);
      forall y | y in s ensures y.id != c.id {
        var k :| 0 <= k < |s| && s[k] == y;
      }
    }
  }

  /** What toggling does, case by case: an absent character is put in front;
      a present one is filtered out, the rest keeping their order. */
  lemma ToggledCases(s: seq<Character>, c: Character)
    ensures !HasId(s, c.id) ==> Toggled(s, c) == [c] + s
    ensures HasId(s, c.id) ==> Toggled(s, c) == WithoutId(s, c.id)
    ensures HasId(s, c.id) ==> |Toggled(s, c)| < |s|
  {
    if HasId(s, c.id) {
      WithoutIdShrinks(s, c.id);
    }
  }

  lemma {:induction false} WithoutIdShrinks(s: seq<Character>, id: int)
    requires HasId(s, id)
    ensures |WithoutId(s, id)| < |s|
  {
    if s[0].id != id {
      var i :| 0 <= i < |s| && s[i].id == id;
      assert s[1..][i - 1] == s[i];
      WithoutIdShrinks(s[1..], id);
    }
  }

  /** Toggling an unselected character twice restores the selection. */
  lemma ToggleTwiceRestores(s: seq<Character>, c: Character)
    requires !HasId(s, c.id)
    ensures Toggled(Toggled(s, c), c) == s
  {
    var t := [c] + s;
    assert Toggled(s, c) == t;
    assert t[0].id == c.id;
    assert t[1..] == s;
    WithoutAbsentId(s, c.id);
  }

  /** Toggling a selected character twice moves this record to the front
      and drops every other entry with its id. */
  lemma ToggleTwicePresent(s: seq<Character>, c: Character)
    requires HasId(s, c.id)
    ensures Toggled(Toggled(s, c), c) == [c] + WithoutId(s, c.id)
  {
  }

  /** Selecting distinct, unselected characters in order stacks them in
      front, the latest first. */
  lemma {:induction false} ToggledAllFresh(s: seq<Character>, cs: seq<Character>)
    requires UniqueIds(cs)
    requires forall i :: 0 <= i < |cs| ==> !HasId(s, cs[i].id)
    ensures ToggledAll(s, cs) == Reversed(cs) + s
    decreases |cs|
  {
    if cs != [] {
      var c, rest := cs[0], cs[1..];
      assert !HasId(s, c.id);
      var s' := [c] + s;
      assert Toggled(s, c) == s';
      FreshAfterPrepend(s, cs);
      ToggledAllFresh(s', rest);
      assert Reversed(cs) == Reversed(rest) + [c];
      assert Reversed(rest) + s' == Reversed(cs) + s;
    }
  }

  lemma FreshAfterPrepend(s: seq<Character>, cs: seq<Character>)
    requires cs != [] && UniqueIds(cs)
    requires forall i :: 0 <= i < |cs| ==> !HasId(s, cs[i].id)
    ensures UniqueIds(cs[1..])
    ensures forall i :: 0 <= i < |cs[1..]| ==> !HasId([cs[0]] + s, cs[1..][i].id)
  {
    var s' := [cs[0]] + s;
    forall i | 0 <= i < |cs[1..]| ensures !HasId(s', cs[1..][i].id) {
      var x := cs[1..][i];
      assert x == cs[i + 1];
      assert !HasId(s, x.id);
      forall k | 0 <= k < |s'| ensures s'[k].id != x.id {
        if k > 0 {
          assert s'[k] == s[k - 1];
        }
      }
    }
  }
}
