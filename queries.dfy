/** The query filters and list comprehensions of the views, on the in-memory tables:
    `filter(...)`, `contains`, `query.get`, the removal `session.delete` performs and
    `order_by(Category.id)`. */
module Queries {
  import opened Records

  /** `[q for q in s if keep(q)]`: the rows of `s` that satisfy `keep`, in their order. */
  function Filter(s: seq<Question>, keep: Question -> bool): (r: seq<Question>)
    ensures |r| <= |s|
    ensures forall x :: x in r <==> x in s && keep(x)
  {
    if s == [] then []
    else (if keep(s[0]) then [s[0]] else []) + Filter(s[1..], keep)
  }

  /** A filter that keeps every row is the identity. */
  lemma {:induction false} FilterKeepsAll(s: seq<Question>, keep: Question -> bool)
    requires forall q :: q in s ==> keep(q)
    ensures Filter(s, keep) == s
  {
    if s != [] {
      assert s[0] in s;
      assert forall q :: q in s[1..] ==> q in s;
      FilterKeepsAll(s[1..], keep);
    }
  }

  /** A filter keeps the id order of the table. */
  lemma {:induction false} FilterKeepsIdOrder(s: seq<Question>, keep: Question -> bool)
    requires IdsAscending(s)
    ensures IdsAscending(Filter(s, keep))
  {
    if s != [] {
      FilterKeepsIdOrder(s[1..], keep);
      var rest := Filter(s[1..], keep);
      assert forall q :: q in rest ==> s[0].id < q.id by {
        forall q | q in rest ensures s[0].id < q.id {
          var k :| 0 <= k < |s[1..]| && s[1..][k] == q;
          assert s[k + 1] == q;
        }
      }
    }
  }

  /** `term` occurs in `text` starting at index `i`. */
  ghost predicate OccursAt(text: string, term: string, i: int) {
    0 <= i && i + |term| <= |text| && text[i..i + |term|] == term
  }

  /** `Question.question.contains(term)`: whether `term` is a substring of `text`. */
  function ContainsSubstring(text: string, term: string): bool
    decreases |text|
  {
    if |term| > |text| then false
    else if term <= text then true
    else ContainsSubstring(text[1..], term)
  }

  /** The recursive test agrees with the definition of a substring. */
  lemma {:induction false} ContainsSubstringIff(text: string, term: string)
    ensures ContainsSubstring(text, term) <==> exists i :: OccursAt(text, term, i)
    decreases |text|
  {
    if |term| > |text| {
    } else if term <= text {
      assert OccursAt(text, term, 0);
    } else {
      ContainsSubstringIff(text[1..], term);
      if i :| OccursAt(text[1..], term, i) {
        assert text[1..][i..i + |term|] == text[i + 1..i + 1 + |term|];
        assert OccursAt(text, term, i + 1);
      }
      if i :| OccursAt(text, term, i) {
        assert i != 0;
        assert text[1..][i - 1..i - 1 + |term|] == text[i..i + |term|];
        assert OccursAt(text[1..], term, i - 1);
      }
    }
  }

  /** `Question.query.get(id)`: the position of the row with that id, if any. */
  function IndexOfId(qs: seq<Question>, id: int): (r: Option<nat>)
    ensures r.Some? ==> r.value < |qs| && qs[r.value].id == id
    ensures r.None? <==> forall q :: q in qs ==> q.id != id
  {
    if qs == [] then None
    else if qs[0].id == id then Some(0)
    else match IndexOfId(qs[1..], id)
      case None => None
      case Some(k) => Some(k + 1)
  }

  /** The table once the row with that id is deleted. */
  function RemoveId(qs: seq<Question>, id: int): seq<Question>
  {
    Filter(qs, (q: Question) => q.id != id)
  }

  /** In a table ordered by id, deleting the row at position `i` removes that row and
      nothing else, keeping the others in order. */
  lemma {:induction false} RemoveIdAt(qs: seq<Question>, i: nat)
    requires IdsAscending(qs)
    requires i < |qs|
    ensures RemoveId(qs, qs[i].id) == qs[..i] + qs[i + 1..]
  {
    var id := qs[i].id;
    AscendingTail(qs);
    if i == 0 {
      RemoveIdAbsent(qs[1..], id);
      assert qs[..0] + qs[1..] == qs[1..];
    } else {
      calc {
        RemoveId(qs, id);
        { assert qs[0].id != id; }
        [qs[0]] + RemoveId(qs[1..], id);
        { RemoveIdAt(qs[1..], i - 1); assert qs[1..][i - 1] == qs[i]; }
        [qs[0]] + (qs[1..][..i - 1] + qs[1..][i..]);
        { assert qs[..i] == [qs[0]] + qs[1..][..i - 1]; assert qs[i + 1..] == qs[1..][i..]; }
        qs[..i] + qs[i + 1..];
      }
    }
  }

  /** The tail of an id-ordered table is id-ordered, and its ids exceed the head's. */
  lemma AscendingTail(qs: seq<Question>)
    requires IdsAscending(qs) && qs != []
    ensures IdsAscending(qs[1..])
    ensures forall k :: 0 <= k < |qs[1..]| ==> qs[0].id < qs[1..][k].id
  {
    forall a, b | 0 <= a < b < |qs[1..]| ensures qs[1..][a].id < qs[1..][b].id {
      assert qs[1..][a] == qs[a + 1] && qs[1..][b] == qs[b + 1];
    }
    forall k | 0 <= k < |qs[1..]| ensures qs[0].id < qs[1..][k].id {
      assert qs[1..][k] == qs[k + 1];
    }
  }

  /** Deleting an id the table does not hold leaves it as it is. */
  lemma {:induction false} RemoveIdAbsent(qs: seq<Question>, id: int)
    requires forall k :: 0 <= k < |qs| ==> qs[k].id != id
    ensures RemoveId(qs, id) == qs
  {
    if qs != [] {
      assert qs[0].id != id;
      assert forall k :: 0 <= k < |qs[1..]| ==> qs[1..][k] == qs[k + 1];
      RemoveIdAbsent(qs[1..], id);
      assert RemoveId(qs, id) == [qs[0]] + RemoveId(qs[1..], id);
    }
  }

  ghost predicate SortedById(cs: seq<Category>) {
    forall i, j :: 0 <= i < j < |cs| ==> cs[i].id <= cs[j].id
  }

  /** `c` placed into an id-sorted list before the first category with a larger id. */
  function InsertById(c: Category, cs: seq<Category>): (r: seq<Category>)
    requires SortedById(cs)
    ensures SortedById(r)
    ensures multiset(r) == multiset(cs) + multiset{c}
    ensures forall x :: x in r ==> x == c || x in cs
  {
    if cs == [] || c.id <= cs[0].id then
      SortedCons(c, cs);
      [c] + cs
    else
      var rest := InsertById(c, cs[1..]);
      assert cs == [cs[0]] + cs[1..];
      SortedCons(cs[0], rest);
      [cs[0]] + rest
  }

  /** A category no larger than every category of a sorted list may go in front of it. */
  lemma SortedCons(a: Category, cs: seq<Category>)
    requires SortedById(cs)
    requires cs != [] ==> a.id <= cs[0].id
    ensures SortedById([a] + cs)
  {
    var r := [a] + cs;
    forall i, j | 0 <= i < j < |r| ensures r[i].id <= r[j].id {
      if i == 0 {
        assert r[j] == cs[j - 1];
        if j > 1 { assert cs[0].id <= cs[j - 1].id; }
      } else {
        assert r[i] == cs[i - 1] && r[j] == cs[j - 1];
      }
    }
  }

  /** `Category.query.order_by(Category.id).all()`: the categories ordered by id. */
  function SortById(cs: seq<Category>): (r: seq<Category>)
    ensures SortedById(r)
    ensures multiset(r) == multiset(cs)
  {
    if cs == [] then []
    else
      assert cs == [cs[0]] + cs[1..];
      InsertById(cs[0], SortById(cs[1..]))
  }
}
