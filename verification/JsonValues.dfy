/**
  JSON values (class JValue in include/jsonvalue.h). Text is held raw, escape sequences
  included. A double is known by its text only.
*/
module JsonValues {
  import opened Wrappers

  datatype JValue =
    | Null
    | Bool(b: bool)
    | Text(raw: string)
    | Int64(n: int)
    | Uint64(u: nat)
    | Number(lexeme: string)
    | Array(items: seq<JValue>)
    | Object(members: seq<Member>)

  datatype Member = Member(key: string, value: JValue)

  /** The order of std::basic_string, character by character. */
  predicate Before(a: string, b: string) {
    if b == [] then false
    else if a == [] then true
    else a[0] < b[0] || (a[0] == b[0] && Before(a[1..], b[1..]))
  }

  lemma {:induction false} BeforeIsTotal(a: string, b: string)
    ensures Before(a, b) || a == b || Before(b, a)
    ensures !(Before(a, b) && Before(b, a)) && (a == b ==> !Before(a, b))
  {
    if a != [] && b != [] {
      BeforeIsTotal(a[1..], b[1..]);
      assert a == [a[0]] + a[1..] && b == [b[0]] + b[1..];
    }
  }

  lemma {:induction false} BeforeIsTransitive(a: string, b: string, c: string)
    requires Before(a, b) && Before(b, c)
    ensures Before(a, c)
  {
    if a != [] && a[0] == b[0] == c[0] {
      BeforeIsTransitive(a[1..], b[1..], c[1..]);
    }
  }

  /** The first k characters are the same, and the next one is smaller. */
  ghost predicate SmallerAt(a: string, b: string, k: nat) {
    k < |a| && k < |b| && a[..k] == b[..k] && (a[k] as int) < (b[k] as int)
  }

  /** One string is before another exactly if it is a proper beginning of it, or smaller at the first difference. */
  lemma {:induction false} BeforeExactly(a: string, b: string)
    ensures Before(a, b) <==> a < b || exists k: nat :: SmallerAt(a, b, k)
  {
    if a != [] && b != [] {
      BeforeExactly(a[1..], b[1..]);
      BeginningMoves(a, b);
      if a[0] == b[0] {
        forall k: nat ensures SmallerAt(a, b, k + 1) <==> SmallerAt(a[1..], b[1..], k) {
          SmallerMoves(a, b, k);
        }
        forall k: nat | SmallerAt(a, b, k) ensures k > 0 && SmallerAt(a[1..], b[1..], k - 1) {
          SmallerMoves(a, b, k - 1);
        }
      } else {
        assert SmallerAt(a, b, 0) <==> a[0] < b[0];
        assert forall k: nat :: SmallerAt(a, b, k) ==> k == 0 || a[..k][0] == b[..k][0];
      }
    }
  }

  lemma BeginningMoves(a: string, b: string)
    requires a != [] && b != []
    ensures a < b <==> a[0] == b[0] && a[1..] < b[1..]
  {
    if a[0] == b[0] && a[1..] < b[1..] {
      assert b[..|a|] == [b[0]] + b[1..][..|a| - 1];
      assert a == [a[0]] + a[1..];
    }
  }

  lemma SmallerMoves(a: string, b: string, k: nat)
    requires a != [] && b != [] && a[0] == b[0]
    ensures SmallerAt(a, b, k + 1) <==> SmallerAt(a[1..], b[1..], k)
  {
    if k + 1 < |a| && k + 1 < |b| {
      assert a[..k + 1] == [a[0]] + a[1..][..k] && b[..k + 1] == [b[0]] + b[1..][..k];
      assert a[1..][..k] == a[..k + 1][1..] && b[1..][..k] == b[..k + 1][1..];
    }
  }

  /** Members in ascending order of their keys, no key twice: what a std::map holds. */
  ghost predicate Sorted(members: seq<Member>) {
    forall i, j :: 0 <= i < j < |members| ==> Before(members[i].key, members[j].key)
  }

  /** std::map's operator[] followed by an assignment. */
  function Put(members: seq<Member>, m: Member): (r: seq<Member>)
    ensures |r| > 0
  {
    if members == [] || Before(m.key, members[0].key) then [m] + members
    else if m.key == members[0].key then [m] + members[1..]
    else [members[0]] + Put(members[1..], m)
  }

  /** The value last put under the key. */
  function Find(members: seq<Member>, key: string): Option<JValue> {
    if members == [] then None
    else if members[0].key == key then Some(members[0].value)
    else Find(members[1..], key)
  }

  ghost predicate AllAfter(key: string, members: seq<Member>) {
    forall m <- members :: Before(key, m.key)
  }

  /** Putting keeps the order, and changes what is found under its own key only. */
  lemma {:induction false} PutIsMapUpdate(members: seq<Member>, m: Member, key: string)
    requires Sorted(members)
    ensures Sorted(Put(members, m))
    ensures Find(Put(members, m), key) == if key == m.key then Some(m.value) else Find(members, key)
  {
    PutKeepsSorted(members, m);
    PutIsFound(members, m, key);
  }

  lemma {:induction false} PutIsFound(members: seq<Member>, m: Member, key: string)
    ensures Find(Put(members, m), key) == if key == m.key then Some(m.value) else Find(members, key)
  {
    if members == [] || Before(m.key, members[0].key) {
      assert ([m] + members)[1..] == members;
      FindBehind(members, m, key);
    } else if m.key == members[0].key {
      assert ([m] + members[1..])[1..] == members[1..];
    } else {
      assert ([members[0]] + Put(members[1..], m))[1..] == Put(members[1..], m);
      PutIsFound(members[1..], m, key);
    }
  }

  lemma FindBehind(members: seq<Member>, m: Member, key: string)
    ensures Find([m] + members, key) == if key == m.key then Some(m.value) else Find(members, key)
  {
    assert ([m] + members)[1..] == members;
  }

  lemma {:induction false} PutKeepsSorted(members: seq<Member>, m: Member)
    requires Sorted(members)
    ensures Sorted(Put(members, m))
    ensures forall k: string :: AllAfter(k, members) && Before(k, m.key) ==> AllAfter(k, Put(members, m))
  {
    if members != [] {
      var first, rest := members[0], members[1..];
      BeforeIsTotal(m.key, first.key);
      assert AllAfter(first.key, rest);
      if Before(m.key, first.key) {
        forall x <- members ensures Before(m.key, x.key) {
          if x != first {
            BeforeIsTransitive(m.key, first.key, x.key);
          }
        }
      } else if m.key != first.key {
        PutKeepsSorted(rest, m);
        assert AllAfter(first.key, Put(rest, m));
      }
    }
  }

  /** A key behind all others goes to the end. */
  lemma {:induction false} PutLast(members: seq<Member>, m: Member)
    requires forall x <- members :: Before(x.key, m.key)
    ensures Put(members, m) == members + [m]
  {
    if members != [] {
      BeforeIsTotal(members[0].key, m.key);
      PutLast(members[1..], m);
      assert members == [members[0]] + members[1..];
    }
  }
}
