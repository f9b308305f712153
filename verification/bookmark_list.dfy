/** The optional value the backend client hands back: a row, a list of rows, or a signed-in user. */
module Wrappers {
  datatype Option<+T> = None | Some(value: T)
}

/**
 * The pure list updaters of the dashboard: the prepend of a row, the filter by id and the
 * change-feed dispatch that chooses between them. The dashboard class in DashboardPage applies
 * these to its `bookmarks` field.
 */
module BookmarkList {

  /** One row of the `bookmarks` table as the page sees it. */
  datatype Bookmark = Bookmark(id: string, url: string, title: string, createdAt: string)

  /** A change-feed payload: INSERT carries the new row, DELETE the id of the old one. */
  datatype ChangeEvent = Insert(row: Bookmark) | Delete(oldId: string) | Other

  /** Some entry of `xs` carries `id`. */
  predicate HasId(xs: seq<Bookmark>, id: string)
  {
    exists b :: b in xs && b.id == id
  }

  /** Number of entries of `xs` that carry `id`. */
  function CountId(xs: seq<Bookmark>, id: string): (n: nat)
    ensures n <= |xs|
    ensures n == 0 <==> !HasId(xs, id)
  {
    if xs == [] then 0
    else (if xs[0].id == id then 1 else 0) + CountId(xs[1..], id)
  }

  /** No two entries of `xs` share an id. */
  ghost predicate UniqueIds(xs: seq<Bookmark>)
  {
    forall i, j :: 0 <= i < j < |xs| ==> xs[i].id != xs[j].id
  }

  /** `s` is `t` with some entries left out, the rest kept in their order. */
  ghost predicate IsSubsequence(s: seq<Bookmark>, t: seq<Bookmark>)
    decreases |t|
  {
    s == [] ||
    (t != [] && ((s[0] == t[0] && IsSubsequence(s[1..], t[1..])) || IsSubsequence(s, t[1..])))
  }

  /**
   * `prev.filter(b => b.id !== id)`: the list without the entries that carry `id`. Used both by
   * the DELETE event of the feed and by the local delete.
   */
  function RemoveId(xs: seq<Bookmark>, id: string): (r: seq<Bookmark>)
    ensures |r| <= |xs|
    ensures forall b :: b in r ==> b in xs && b.id != id
    ensures forall b :: b in xs && b.id != id ==> b in r
  {
    if xs == [] then []
    else if xs[0].id == id then RemoveId(xs[1..], id)
    else [xs[0]] + RemoveId(xs[1..], id)
  }

  /**
   * `[row, ...prev]`: the row goes to the front, the old entries follow unchanged, and nothing is
   * checked against the ids already listed. Used both by the INSERT event of the feed and by a
   * successful create.
   */
  function Prepend(xs: seq<Bookmark>, row: Bookmark): (r: seq<Bookmark>)
    ensures |r| == |xs| + 1 && r[0] == row && r[1..] == xs
    ensures forall b :: b in r <==> b == row || b in xs
  {
    [row] + xs
  }

  /** The feed handler's dispatch on the event type. */
  function ApplyEvent(xs: seq<Bookmark>, ev: ChangeEvent): (r: seq<Bookmark>)
    ensures ev.Insert? ==> |r| == |xs| + 1 && r[0] == ev.row && r[1..] == xs
    ensures ev.Delete? ==> !HasId(r, ev.oldId) && |r| <= |xs|
    ensures ev.Delete? ==> forall b :: b in r <==> b in xs && b.id != ev.oldId
    ensures ev.Other? ==> r == xs
  {
    match ev
    case Insert(row) => Prepend(xs, row)
    case Delete(oldId) => RemoveId(xs, oldId)
    case Other => xs
  }

  /** The feed events delivered one after another, first event first. */
  function ApplyEvents(xs: seq<Bookmark>, evs: seq<ChangeEvent>): (r: seq<Bookmark>)
    ensures |r| <= |xs| + |evs|
    decreases |evs|
  {
    if evs == [] then xs else ApplyEvents(ApplyEvent(xs, evs[0]), evs[1..])
  }

  /** Some INSERT of `b` in `evs` is not followed by a DELETE of its id. */
  ghost predicate InsertedAndKept(evs: seq<ChangeEvent>, b: Bookmark)
  {
    exists k :: 0 <= k < |evs| && evs[k] == Insert(b) && Delete(b.id) !in evs[k + 1..]
  }

  /**
   * Independent description of what the list holds after the feed delivered `evs` to `xs`:
   * an entry that was there and whose id was never deleted, or an inserted row whose id was
   * not deleted after its insertion.
   */
  ghost predicate Survives(xs: seq<Bookmark>, evs: seq<ChangeEvent>, b: Bookmark)
  {
    (b in xs && Delete(b.id) !in evs) || InsertedAndKept(evs, b)
  }

  // ---------------------------------------------------------------- filter by id

  /** The filter keeps every entry with another id as many times as it occurred, and no other. */
  lemma {:induction false} RemoveIdCounts(xs: seq<Bookmark>, id: string, b: Bookmark)
    ensures multiset(RemoveId(xs, id))[b] == if b.id == id then 0 else multiset(xs)[b]
  {
    if xs != [] {
      RemoveIdCounts(xs[1..], id, b);
      assert xs == [xs[0]] + xs[1..];
    }
  }

  /** The filter keeps the surviving entries in their original relative order. */
  lemma {:induction false} RemoveIdSubsequence(xs: seq<Bookmark>, id: string)
    ensures IsSubsequence(RemoveId(xs, id), xs)
  {
    if xs != [] {
      RemoveIdSubsequence(xs[1..], id);
      var rest := RemoveId(xs[1..], id);
      if xs[0].id != id {
        var r := [xs[0]] + rest;
        assert r[0] == xs[0] && r[1..] == rest;
      }
    }
  }

  /** Deleting an id that is not in the list leaves the list unchanged. */
  lemma {:induction false} RemoveIdAbsent(xs: seq<Bookmark>, id: string)
    requires !HasId(xs, id)
    ensures RemoveId(xs, id) == xs
  {
    if xs != [] {
      assert xs[0] in xs;
      assert !HasId(xs[1..], id) by {
        forall b | b in xs[1..] ensures b.id != id {
          assert b in xs;
        }
      }
      RemoveIdAbsent(xs[1..], id);
      assert xs == [xs[0]] + xs[1..];
    }
  }

  /** Applying the same delete twice gives the same list as applying it once. */
  lemma {:induction false} RemoveIdIdempotent(xs: seq<Bookmark>, id: string)
    ensures RemoveId(RemoveId(xs, id), id) == RemoveId(xs, id)
  {
    RemoveIdAbsent(RemoveId(xs, id), id);
  }

  /** Two deletes of different ids may arrive in either order with the same outcome. */
  lemma {:induction false} RemoveIdCommutes(xs: seq<Bookmark>, a: string, b: string)
    ensures RemoveId(RemoveId(xs, a), b) == RemoveId(RemoveId(xs, b), a)
  {
    if xs != [] {
      RemoveIdCommutes(xs[1..], a, b);
      var x := xs[0];
      if x.id != a && x.id != b {
        var ra := RemoveId(xs[1..], a);
        var rb := RemoveId(xs[1..], b);
        assert ([x] + ra)[0] == x && ([x] + ra)[1..] == ra;
        assert ([x] + rb)[0] == x && ([x] + rb)[1..] == rb;
      } else if x.id != a {
        var ra := RemoveId(xs[1..], a);
        assert ([x] + ra)[0] == x && ([x] + ra)[1..] == ra;
      } else if x.id != b {
        var rb := RemoveId(xs[1..], b);
        assert ([x] + rb)[0] == x && ([x] + rb)[1..] == rb;
      }
    }
  }

  /** The filter never introduces a duplicate id. */
  lemma {:induction false} RemoveIdKeepsUnique(xs: seq<Bookmark>, id: string)
    requires UniqueIds(xs)
    ensures UniqueIds(RemoveId(xs, id))
  {
    if xs != [] {
      assert UniqueIds(xs[1..]) by {
        forall i, j | 0 <= i < j < |xs[1..]| ensures xs[1..][i].id != xs[1..][j].id {
          assert xs[1..][i] == xs[i + 1] && xs[1..][j] == xs[j + 1];
        }
      }
      RemoveIdKeepsUnique(xs[1..], id);
      var rest := RemoveId(xs[1..], id);
      if xs[0].id != id {
        var r := [xs[0]] + rest;
        forall i, j | 0 <= i < j < |r| ensures r[i].id != r[j].id {
          if i == 0 {
            assert r[j] == rest[j - 1];
            assert rest[j - 1] in rest;
            var k :| 0 <= k < |xs[1..]| && xs[1..][k] == rest[j - 1];
            assert xs[k + 1] == rest[j - 1];
          } else {
            assert r[i] == rest[i - 1] && r[j] == rest[j - 1];
          }
        }
      }
    }
  }

  // ---------------------------------------------------------------- change feed

  /** An INSERT event adds exactly one more entry with the row's id, even if one is present. */
  lemma {:induction false} InsertAddsOneEntry(xs: seq<Bookmark>, row: Bookmark)
    ensures CountId(ApplyEvent(xs, Insert(row)), row.id) == CountId(xs, row.id) + 1
  {
  }

  /** An INSERT of a row whose id is already listed breaks uniqueness of ids. */
  lemma {:induction false} InsertOfListedIdDuplicates(xs: seq<Bookmark>, row: Bookmark)
    requires HasId(xs, row.id)
    ensures CountId(ApplyEvent(xs, Insert(row)), row.id) >= 2
    ensures !UniqueIds(ApplyEvent(xs, Insert(row)))
  {
  }

  /**
   * The duplicate race: the row returned by the insert is prepended by the form handler and
   * again by its own INSERT event, in whichever order the two arrive.
   */
  lemma {:induction false} CreateAndEchoDuplicate(xs: seq<Bookmark>, row: Bookmark)
    ensures ApplyEvent(Prepend(xs, row), Insert(row)) == [row, row] + xs
    ensures Prepend(ApplyEvent(xs, Insert(row)), row) == [row, row] + xs
    ensures CountId([row, row] + xs, row.id) == CountId(xs, row.id) + 2
    ensures !UniqueIds([row, row] + xs)
  {
  }

  /** The DELETE echo of one's own local delete changes nothing. */
  lemma {:induction false} DeleteEchoIsNoOp(xs: seq<Bookmark>, id: string)
    ensures ApplyEvent(RemoveId(xs, id), Delete(id)) == RemoveId(xs, id)
  {
    RemoveIdIdempotent(xs, id);
  }

  /** INSERT followed by DELETE of the same id removes the row and every older entry with that id. */
  lemma {:induction false} InsertThenDelete(xs: seq<Bookmark>, row: Bookmark)
    ensures ApplyEvents(xs, [Insert(row), Delete(row.id)]) == RemoveId(xs, row.id)
  {
    var evs := [Insert(row), Delete(row.id)];
    var ys := [row] + xs;
    assert ApplyEvents(xs, evs) == ApplyEvents(ys, evs[1..]);
    assert evs[1..] == [Delete(row.id)];
    assert ApplyEvents(ys, [Delete(row.id)]) == ApplyEvents(RemoveId(ys, row.id), []);
    assert ys[0] == row && ys[1..] == xs;
  }

  /** Splitting off the first event of an `InsertedAndKept` search. */
  lemma {:induction false} InsertedAndKeptStep(evs: seq<ChangeEvent>, b: Bookmark)
    requires evs != []
    ensures InsertedAndKept(evs, b) <==>
      (evs[0] == Insert(b) && Delete(b.id) !in evs[1..]) || InsertedAndKept(evs[1..], b)
  {
    var rest, d := evs[1..], Delete(b.id);
    if InsertedAndKept(evs, b) {
      var k :| 0 <= k < |evs| && evs[k] == Insert(b) && d !in evs[k + 1..];
      if k > 0 {
        assert rest[k - 1] == evs[k] && rest[k..] == evs[k + 1..];
      }
    }
    if InsertedAndKept(rest, b) {
      var k :| 0 <= k < |rest| && rest[k] == Insert(b) && d !in rest[k + 1..];
      assert evs[k + 1] == rest[k] && evs[k + 2..] == rest[k + 1..];
    }
  }

  /** One step of the replay: `Survives` after `[e] + rest` is `Survives` of `rest` after `e`. */
  lemma {:induction false} SurvivesStep(xs: seq<Bookmark>, evs: seq<ChangeEvent>, b: Bookmark)
    requires evs != []
    ensures Survives(xs, evs, b) <==> Survives(ApplyEvent(xs, evs[0]), evs[1..], b)
  {
    var e, rest := evs[0], evs[1..];
    assert evs == [e] + rest;
    assert Delete(b.id) !in evs <==> e != Delete(b.id) && Delete(b.id) !in rest;
    InsertedAndKeptStep(evs, b);
    match e
    case Insert(row) =>
      assert ApplyEvent(xs, e) == [row] + xs;
    case Delete(oldId) =>
    case Other =>
  }

  /**
   * Replaying feed events on a list: an entry is in the result exactly when it was listed and
   * its id never deleted, or it was inserted and its id not deleted afterwards.
   */
  lemma {:induction false} ReplayMembership(xs: seq<Bookmark>, evs: seq<ChangeEvent>, b: Bookmark)
    ensures b in ApplyEvents(xs, evs) <==> Survives(xs, evs, b)
    decreases |evs|
  {
    if evs != [] {
      ReplayMembership(ApplyEvent(xs, evs[0]), evs[1..], b);
      SurvivesStep(xs, evs, b);
    }
  }
}
