/**
 This module models the role filter of the token endpoint: the roles the platform
 reports are passed through a set difference that ignores letter case, which
 removes every spelling of "anonymous". The set difference behaves like a hash
 set seeded with the excluded values: each role is kept only when its key is not
 already in the set, and is then added to it. So the result also loses every later
 role that equals an earlier one ignoring case, and keeps the order of the first
 occurrences.
 */
module RoleFilter {
  import opened CaseFold

  /** The role every visitor holds, and which never counts toward authorization. */
  const AnonymousRole: string := "anonymous"

  /** Position i holds the first role of its case-insensitive class. */
  predicate FirstOfClass(rs: seq<string>, i: int)
    requires 0 <= i < |rs|
  {
    forall j :: 0 <= j < i ==> !EqualsIgnoreCase(rs[j], rs[i])
  }

  /** No two entries are equal ignoring case (so in particular no two are equal). */
  predicate DistinctIgnoringCase(rs: seq<string>) {
    forall i, j :: 0 <= i < j < |rs| ==> !EqualsIgnoreCase(rs[i], rs[j])
  }

  /** `a` is `b` with some entries dropped and the rest in their original order. */
  predicate IsSubsequence(a: seq<string>, b: seq<string>)
    decreases |b|
  {
    if a == [] then true
    else if b == [] then false
    else (a[0] == b[0] && IsSubsequence(a[1..], b[1..])) || IsSubsequence(a, b[1..])
  }

  /**
   The set-difference iterator: walks `first` with a set `seen` of keys, yielding
   an entry exactly when adding its key to `seen` succeeds.
   */
  function ExceptFrom(first: seq<string>, seen: set<string>): (r: seq<string>)
    ensures forall i :: 0 <= i < |r| ==> Fold(r[i]) !in seen
    ensures forall i :: 0 <= i < |r| ==> r[i] in first
    ensures DistinctIgnoringCase(r)
    ensures |r| <= |first|
    decreases |first|
  {
    if first == [] then []
    else if Fold(first[0]) in seen then ExceptFrom(first[1..], seen)
    else [first[0]] + ExceptFrom(first[1..], seen + {Fold(first[0])})
  }

  /** The roles that remain once every spelling of "anonymous" is removed. */
  function FilterRoles(roles: seq<string>): (r: seq<string>)
    ensures forall i :: 0 <= i < |r| ==> !EqualsIgnoreCase(r[i], AnonymousRole)
    ensures forall i :: 0 <= i < |r| ==> r[i] in roles
    ensures DistinctIgnoringCase(r)
  {
    ExceptFrom(roles, {Fold(AnonymousRole)})
  }

  /**
   What ExceptFrom keeps, independently of how it walks: exactly the entries that
   are the first of their class and whose key was not already seen.
   */
  lemma {:induction false} ExceptFromMembership(first: seq<string>, seen: set<string>, x: string)
    ensures x in ExceptFrom(first, seen) <==>
      exists i :: 0 <= i < |first| && first[i] == x && Fold(x) !in seen && FirstOfClass(first, i)
    decreases |first|
  {
    if first == [] {
    } else {
      var h, t := first[0], first[1..];
      if Fold(h) in seen {
        ExceptFromMembership(t, seen, x);
        if x in ExceptFrom(first, seen) {
          var i' :| 0 <= i' < |t| && t[i'] == x && Fold(x) !in seen && FirstOfClass(t, i');
          assert first[i' + 1] == x;
          assert FirstOfClass(first, i' + 1);
        }
        if exists i :: 0 <= i < |first| && first[i] == x && Fold(x) !in seen && FirstOfClass(first, i) {
          var i :| 0 <= i < |first| && first[i] == x && Fold(x) !in seen && FirstOfClass(first, i);
          assert i != 0;
          assert t[i - 1] == x;
          assert FirstOfClass(t, i - 1) by {
            forall j | 0 <= j < i - 1
              ensures !EqualsIgnoreCase(t[j], t[i - 1])
            {
              assert t[j] == first[j + 1];
            }
          }
        }
      } else {
        var seen' := seen + {Fold(h)};
        ExceptFromMembership(t, seen', x);
        assert ExceptFrom(first, seen) == [h] + ExceptFrom(t, seen');
        if x in ExceptFrom(first, seen) {
          if x == h {
            assert first[0] == x && FirstOfClass(first, 0);
          } else {
            assert x in ExceptFrom(t, seen');
            var i' :| 0 <= i' < |t| && t[i'] == x && Fold(x) !in seen' && FirstOfClass(t, i');
            assert first[i' + 1] == x;
            assert FirstOfClass(first, i' + 1);
          }
        }
        if exists i :: 0 <= i < |first| && first[i] == x && Fold(x) !in seen && FirstOfClass(first, i) {
          var i :| 0 <= i < |first| && first[i] == x && Fold(x) !in seen && FirstOfClass(first, i);
          if i != 0 {
            assert !EqualsIgnoreCase(first[0], x);
            assert t[i - 1] == x;
            assert FirstOfClass(t, i - 1) by {
              forall j | 0 <= j < i - 1
                ensures !EqualsIgnoreCase(t[j], t[i - 1])
              {
                assert t[j] == first[j + 1];
              }
            }
            assert x in ExceptFrom(t, seen');
          }
        }
      }
    }
  }

  /** A role survives the filter exactly when it is not "anonymous" in any spelling and is the first of its class. */
  lemma FilterRolesMembership(roles: seq<string>, x: string)
    ensures x in FilterRoles(roles) <==>
      exists i :: 0 <= i < |roles| && roles[i] == x && !EqualsIgnoreCase(x, AnonymousRole) && FirstOfClass(roles, i)
  {
    ExceptFromMembership(roles, {Fold(AnonymousRole)}, x);
  }

  /** Every entry of `first` whose key is not in `seen` is represented in the result by an entry of its class. */
  lemma {:induction false} ExceptFromCovers(first: seq<string>, seen: set<string>, x: string)
    requires x in first && Fold(x) !in seen
    ensures exists y :: y in ExceptFrom(first, seen) && EqualsIgnoreCase(y, x)
    decreases |first|
  {
    var h, t := first[0], first[1..];
    if Fold(h) in seen {
      assert x != h && x in t;
      ExceptFromCovers(t, seen, x);
    } else {
      var seen' := seen + {Fold(h)};
      assert ExceptFrom(first, seen) == [h] + ExceptFrom(t, seen');
      if Fold(x) == Fold(h) {
        assert h in ExceptFrom(first, seen);
      } else {
        assert x in t;
        ExceptFromCovers(t, seen', x);
      }
    }
  }

  /** Every role that is not "anonymous" in any spelling is still present after filtering, up to letter case. */
  lemma FilterRolesComplete(roles: seq<string>, x: string)
    requires x in roles && !EqualsIgnoreCase(x, AnonymousRole)
    ensures exists y :: y in FilterRoles(roles) && EqualsIgnoreCase(y, x)
  {
    ExceptFromCovers(roles, {Fold(AnonymousRole)}, x);
  }

  /** The filter keeps the surviving roles in their original order. */
  lemma {:induction false} ExceptFromIsSubsequence(first: seq<string>, seen: set<string>)
    ensures IsSubsequence(ExceptFrom(first, seen), first)
    decreases |first|
  {
    if first != [] {
      var h, t := first[0], first[1..];
      if Fold(h) in seen {
        ExceptFromIsSubsequence(t, seen);
        if ExceptFrom(t, seen) != [] {
          assert IsSubsequence(ExceptFrom(first, seen), first);
        }
      } else {
        var seen' := seen + {Fold(h)};
        ExceptFromIsSubsequence(t, seen');
        var r := ExceptFrom(first, seen);
        assert r == [h] + ExceptFrom(t, seen');
        assert r[1..] == ExceptFrom(t, seen');
      }
    }
  }

  lemma FilterRolesIsSubsequence(roles: seq<string>)
    ensures IsSubsequence(FilterRoles(roles), roles)
  {
    ExceptFromIsSubsequence(roles, {Fold(AnonymousRole)});
  }

  /** Nothing is left exactly when every role is "anonymous" in some spelling. */
  lemma FilterRolesEmptyIff(roles: seq<string>)
    ensures FilterRoles(roles) == [] <==> forall i :: 0 <= i < |roles| ==> EqualsIgnoreCase(roles[i], AnonymousRole)
  {
    if exists i :: 0 <= i < |roles| && !EqualsIgnoreCase(roles[i], AnonymousRole) {
      var i :| 0 <= i < |roles| && !EqualsIgnoreCase(roles[i], AnonymousRole);
      FilterRolesComplete(roles, roles[i]);
    }
    if FilterRoles(roles) != [] {
      var x := FilterRoles(roles)[0];
      FilterRolesMembership(roles, x);
    }
  }

  /** On a duplicate-free sequence none of whose keys was seen, the iterator yields its input unchanged. */
  lemma {:induction false} ExceptFromKeepsDistinct(first: seq<string>, seen: set<string>)
    requires DistinctIgnoringCase(first)
    requires forall i :: 0 <= i < |first| ==> Fold(first[i]) !in seen
    ensures ExceptFrom(first, seen) == first
    decreases |first|
  {
    if first != [] {
      var h, t := first[0], first[1..];
      var seen' := seen + {Fold(h)};
      forall i | 0 <= i < |t|
        ensures Fold(t[i]) !in seen'
      {
        assert t[i] == first[i + 1];
      }
      assert DistinctIgnoringCase(t) by {
        forall i, j | 0 <= i < j < |t|
          ensures !EqualsIgnoreCase(t[i], t[j])
        {
          assert t[i] == first[i + 1] && t[j] == first[j + 1];
        }
      }
      ExceptFromKeepsDistinct(t, seen');
    }
  }

  /** Filtering an already filtered role list changes nothing. */
  lemma FilterRolesIdempotent(roles: seq<string>)
    ensures FilterRoles(FilterRoles(roles)) == FilterRoles(roles)
  {
    var r := FilterRoles(roles);
    ExceptFromKeepsDistinct(r, {Fold(AnonymousRole)});
  }
}
