/**
  What the order numbers handed out by `OrderField` look like across saves:
  scopes partition the table, rows outside a scope never affect it, and saving
  one instance after another into a scope numbers its rows 0, 1, 2, ...
 */
module OrderProperties {
  import opened Fields

  /** The table after the framework stores an instance that was given order `v`. */
  function Stored(table: seq<Record>, attrs: map<string, Value>, v: nat): seq<Record>
  {
    table + [Record(attrs, v)]
  }

  /**
    The instances `saves` (their attribute maps) saved one after another, in order,
    each numbered by the hook; a save whose hook raises stores nothing.
   */
  function SaveMany(table: seq<Record>, forFields: Option<seq<string>>, saves: seq<map<string, Value>>): seq<Record>
    decreases |saves|
  {
    if |saves| == 0 then table
    else
      var t := SaveMany(table, forFields, saves[..|saves| - 1]);
      var attrs := saves[|saves| - 1];
      match NextOrder(t, forFields, attrs)
      case Ok(v) => Stored(t, attrs, v)
      case Err(_) => t
  }

  /** The rows are numbered 0, 1, 2, ... in table order. */
  predicate Contiguous(rs: seq<Record>)
  {
    forall i :: 0 <= i < |rs| ==> rs[i].order == i
  }

  /** No two rows share an order number. */
  predicate DistinctOrders(rs: seq<Record>)
  {
    forall i, j :: 0 <= i < j < |rs| ==> rs[i].order != rs[j].order
  }

  /** Filtering distributes over concatenation of tables. */
  lemma {:induction false} ScopeAppend(t: seq<Record>, u: seq<Record>, q: Query)
    ensures Scope(t + u, q) == Scope(t, q) + Scope(u, q)
    decreases |u|
  {
    if |u| == 0 {
      assert t + u == t;
    } else {
      var u' := u[..|u| - 1];
      assert (t + u)[..|t + u| - 1] == t + u';
      assert (t + u)[|t + u| - 1] == u[|u| - 1];
      ScopeAppend(t, u', q);
    }
  }

  /** The empty filter keeps every row. */
  lemma {:induction false} ScopeUnfiltered(t: seq<Record>)
    ensures Scope(t, map[]) == t
  {
    if |t| > 0 {
      ScopeUnfiltered(t[..|t| - 1]);
      assert t[..|t| - 1] + [t[|t| - 1]] == t;
    }
  }

  /** The scope holds exactly the rows of the table that pass the filter. */
  lemma {:induction false} ScopeMembers(t: seq<Record>, q: Query)
    ensures forall r :: r in Scope(t, q) <==> r in t && Matches(r, q)
  {
    if |t| > 0 {
      var init := t[..|t| - 1];
      ScopeMembers(init, q);
      assert t == init + [t[|t| - 1]];
    }
  }

  /** A table without matching rows has an empty scope. */
  lemma {:induction false} ScopeOfOthers(u: seq<Record>, q: Query)
    requires forall i :: 0 <= i < |u| ==> !Matches(u[i], q)
    ensures Scope(u, q) == []
  {
    if |u| > 0 {
      ScopeOfOthers(u[..|u| - 1], q);
    }
  }

  /** The number depends on the table only through the instance's scope. */
  lemma SameScopeRowsSameOrder(t1: seq<Record>, t2: seq<Record>, forFields: Option<seq<string>>, attrs: map<string, Value>)
    requires ScopeQuery(forFields, attrs).Ok?
    requires Scope(t1, ScopeQuery(forFields, attrs).value) == Scope(t2, ScopeQuery(forFields, attrs).value)
    ensures NextOrder(t1, forFields, attrs) == NextOrder(t2, forFields, attrs)
  {
  }

  /**
    With no scope fields (none given, or an empty list) every existing row takes
    part: the result is 0 on an empty table, else one more than its largest order.
   */
  lemma UnscopedUsesWholeTable(t: seq<Record>, forFields: Option<seq<string>>, attrs: map<string, Value>)
    requires !ScopeActive(forFields)
    ensures NextOrder(t, forFields, attrs).Ok?
    ensures var v := NextOrder(t, forFields, attrs).value;
            && (v == 0 <==> |t| == 0)
            && (forall i :: 0 <= i < |t| ==> t[i].order < v)
            && (|t| > 0 ==> exists i :: 0 <= i < |t| && t[i].order + 1 == v)
  {
    ScopeUnfiltered(t);
  }

  /** An empty scope list and no scope list number instances identically. */
  lemma EmptyScopeListIsNoScope(t: seq<Record>, attrs: map<string, Value>)
    ensures NextOrder(t, Some([]), attrs) == NextOrder(t, None, attrs)
  {
  }

  /**
    With scope fields, a row takes part exactly when it is a row of the table
    that equals the instance on every scope field.
   */
  lemma ScopeByFields(t: seq<Record>, fs: seq<string>, attrs: map<string, Value>, r: Record)
    requires |fs| > 0
    requires ScopeQuery(Some(fs), attrs).Ok?
    ensures r in Scope(t, ScopeQuery(Some(fs), attrs).value) <==>
              r in t && forall f :: f in fs ==> f in r.fields && r.fields[f] == attrs[f]
  {
    ScopeMembers(t, ScopeQuery(Some(fs), attrs).value);
  }

  /**
    Once the comprehension reaches an unset foreign key, the hook's `except`
    catches the "does not exist" error and the number is 0, whatever the table
    holds and whatever scope fields come after it.
   */
  lemma UnsetScopeFieldGivesZero(t: seq<Record>, fs: seq<string>, attrs: map<string, Value>, i: nat)
    requires i < |fs| && fs[i] in attrs && attrs[fs[i]] == Unset
    requires forall j :: 0 <= j < i ==> fs[j] in attrs
    ensures NextOrder(t, Some(fs), attrs) == Ok(0)
  {
    var r := ScopeQuery(Some(fs), attrs);
    assert !Readable(attrs, fs[i]);
    var k :| 0 <= k < |fs| && fs[k] == r.error.name && !Readable(attrs, fs[k]) &&
             (r.error.MissingAttribute? <==> fs[k] !in attrs) &&
             forall j :: 0 <= j < k ==> Readable(attrs, fs[j]);
    assert k <= i;
  }

  /**
    `for_fields=['course', 'x']` on an instance whose course is unset and which
    has no `x` at all: the course is read first, so the hook gives 0.
   */
  lemma UnsetBeforeMissingExample(t: seq<Record>)
    ensures NextOrder(t, Some(["course", "x"]), map["course" := Unset]) == Ok(0)
  {
    UnsetScopeFieldGivesZero(t, ["course", "x"], map["course" := Unset], 0);
  }

  /** With `x` listed first, the missing attribute is reached first and escapes. */
  lemma MissingBeforeUnsetExample(t: seq<Record>)
    ensures NextOrder(t, Some(["x", "course"]), map["course" := Unset]) == Err(MissingAttribute("x"))
  {
  }

  /** Rows outside the instance's scope, stored before or after, never change its number. */
  lemma OtherScopesIrrelevant(t: seq<Record>, u: seq<Record>, forFields: Option<seq<string>>, attrs: map<string, Value>)
    requires ScopeQuery(forFields, attrs).Ok?
    requires forall i :: 0 <= i < |u| ==> !Matches(u[i], ScopeQuery(forFields, attrs).value)
    ensures NextOrder(t + u, forFields, attrs) == NextOrder(t, forFields, attrs)
    ensures NextOrder(u + t, forFields, attrs) == NextOrder(t, forFields, attrs)
  {
    var q := ScopeQuery(forFields, attrs).value;
    ScopeOfOthers(u, q);
    ScopeAppend(t, u, q);
    ScopeAppend(u, t, q);
    assert Scope(t + u, q) == Scope(t, q) by {
      assert Scope(t, q) + [] == Scope(t, q);
    }
    assert Scope(u + t, q) == Scope(t, q) by {
      assert [] + Scope(t, q) == Scope(t, q);
    }
    SameScopeRowsSameOrder(t + u, t, forFields, attrs);
    SameScopeRowsSameOrder(u + t, t, forFields, attrs);
  }

  /** The query read off the instance depends only on the instance's values on the scope fields. */
  lemma {:induction false} QueryDependsOnScopeValues(fields: seq<string>, a1: map<string, Value>, a2: map<string, Value>)
    requires forall i :: 0 <= i < |fields| ==>
               (fields[i] in a1 <==> fields[i] in a2) && (fields[i] in a1 ==> a1[fields[i]] == a2[fields[i]])
    ensures BuildQuery(fields, a1) == BuildQuery(fields, a2)
  {
    if |fields| > 0 {
      QueryDependsOnScopeValues(fields[1..], a1, a2);
    }
  }

  /**
    Two instances that have the same scope fields, with the same values, get the
    same number from the same table (or fail with the same error).
   */
  lemma SameScopeSameOrder(t: seq<Record>, forFields: Option<seq<string>>, a1: map<string, Value>, a2: map<string, Value>)
    requires forall f :: forFields.Some? && f in forFields.value ==>
               (f in a1 <==> f in a2) && (f in a1 ==> a1[f] == a2[f])
    ensures NextOrder(t, forFields, a1) == NextOrder(t, forFields, a2)
  {
    if ScopeActive(forFields) {
      var fs := forFields.value;
      forall i | 0 <= i < |fs|
        ensures (fs[i] in a1 <==> fs[i] in a2) && (fs[i] in a1 ==> a1[fs[i]] == a2[fs[i]])
      {
        assert fs[i] in fs;
      }
      QueryDependsOnScopeValues(fs, a1, a2);
    }
  }

  /** The instance matches the filter read off itself: it belongs to its own scope. */
  lemma InstanceInOwnScope(forFields: Option<seq<string>>, attrs: map<string, Value>, q: Query, v: nat)
    requires ScopeQuery(forFields, attrs) == Ok(q)
    ensures Matches(Record(attrs, v), q)
  {
  }

  /** Storing a row that passes filter `q` appends it to that scope. */
  lemma StoredJoinsScope(t: seq<Record>, attrs: map<string, Value>, v: nat, q: Query)
    requires Matches(Record(attrs, v), q)
    ensures Scope(Stored(t, attrs, v), q) == Scope(t, q) + [Record(attrs, v)]
  {
    assert Stored(t, attrs, v)[..|t|] == t;
  }

  /** Storing a row that falls outside scope `q` leaves that scope saves it was. */
  lemma StoredLeavesOtherScope(t: seq<Record>, attrs: map<string, Value>, v: nat, q: Query)
    requires !Matches(Record(attrs, v), q)
    ensures Scope(Stored(t, attrs, v), q) == Scope(t, q)
  {
    assert Stored(t, attrs, v)[..|t|] == t;
  }

  /**
    The number given is above every order already in the scope, so distinct
    orders in a scope stay distinct after the save.
   */
  lemma SaveKeepsOrdersDistinct(t: seq<Record>, forFields: Option<seq<string>>, attrs: map<string, Value>)
    requires ScopeQuery(forFields, attrs).Ok?
    requires DistinctOrders(Scope(t, ScopeQuery(forFields, attrs).value))
    ensures NextOrder(t, forFields, attrs).Ok?
    ensures var v := NextOrder(t, forFields, attrs).value;
            DistinctOrders(Scope(Stored(t, attrs, v), ScopeQuery(forFields, attrs).value))
  {
    var v := NextOrder(t, forFields, attrs).value;
    InstanceInOwnScope(forFields, attrs, ScopeQuery(forFields, attrs).value, v);
    StoredJoinsScope(t, attrs, v, ScopeQuery(forFields, attrs).value);
  }

  /**
    A scope numbered 0 .. k-1 gets k next, and is then numbered 0 .. k: the
    numbers in a scope stay contiguous while every row goes through the hook.
   */
  lemma SaveKeepsScopeContiguous(t: seq<Record>, forFields: Option<seq<string>>, attrs: map<string, Value>, q: Query)
    requires ScopeQuery(forFields, attrs) == Ok(q)
    requires Contiguous(Scope(t, q))
    ensures NextOrder(t, forFields, attrs) == Ok(|Scope(t, q)|)
    ensures |Scope(Stored(t, attrs, |Scope(t, q)|), q)| == |Scope(t, q)| + 1
    ensures Contiguous(Scope(Stored(t, attrs, |Scope(t, q)|), q))
  {
    var s := Scope(t, q);
    var v := NextOrder(t, forFields, attrs).value;
    if |s| > 0 {
      var i :| 0 <= i < |s| && s[i].order + 1 == v;
      assert s[i].order == i;
      assert s[|s| - 1].order == |s| - 1;
    }
    assert v == |s|;
    InstanceInOwnScope(forFields, attrs, q, v);
    StoredJoinsScope(t, attrs, v, q);
    var s' := Scope(Stored(t, attrs, v), q);
    assert s' == s + [Record(attrs, v)];
    forall i | 0 <= i < |s'|
      ensures s'[i].order == i
    {
      if i < |s| {
        assert s'[i] == s[i];
      }
    }
  }

  /** The instances `saves`, row `i` numbered `i`. */
  function Numbered(saves: seq<map<string, Value>>): (rs: seq<Record>)
    ensures |rs| == |saves|
  {
    if |saves| == 0 then [] else Numbered(saves[..|saves| - 1]) + [Record(saves[|saves| - 1], |saves| - 1)]
  }

  /** Row `i` of `Numbered(saves)` is instance `i`, numbered `i`. */
  lemma {:induction false} NumberedAt(saves: seq<map<string, Value>>, i: nat)
    requires i < |saves|
    ensures Numbered(saves)[i] == Record(saves[i], i)
  {
    if i < |saves| - 1 {
      NumberedAt(saves[..|saves| - 1], i);
    }
  }

  /** A scope holding instances numbered 0 .. k-1 gives the next instance k. */
  lemma NextAfterNumbered(t: seq<Record>, forFields: Option<seq<string>>, attrs: map<string, Value>, q: Query,
                          saves: seq<map<string, Value>>)
    requires ScopeQuery(forFields, attrs) == Ok(q)
    requires Scope(t, q) == Numbered(saves)
    ensures NextOrder(t, forFields, attrs) == Ok(|saves|)
  {
    var s := Scope(t, q);
    var v := NextOrder(t, forFields, attrs).value;
    if |saves| > 0 {
      var i :| 0 <= i < |saves| && s[i].order + 1 == v;
      NumberedAt(saves, i);
      NumberedAt(saves, |saves| - 1);
    }
  }

  /** One more save into a scope holding instances numbered 0 .. k-1 adds it, numbered k. */
  lemma SaveManyStep(t: seq<Record>, forFields: Option<seq<string>>, saves: seq<map<string, Value>>, q: Query)
    requires |saves| > 0 && ScopeQuery(forFields, saves[|saves| - 1]) == Ok(q)
    requires Scope(SaveMany(t, forFields, saves[..|saves| - 1]), q) == Numbered(saves[..|saves| - 1])
    ensures Scope(SaveMany(t, forFields, saves), q) == Numbered(saves)
  {
    var init := saves[..|saves| - 1];
    var attrs := saves[|saves| - 1];
    var k := |init|;
    var t' := SaveMany(t, forFields, init);
    NextAfterNumbered(t', forFields, attrs, q, init);
    assert SaveMany(t, forFields, saves) == Stored(t', attrs, k);
    InstanceInOwnScope(forFields, attrs, q, k);
    StoredJoinsScope(t', attrs, k, q);
  }

  /**
    Saving instances of one scope, one after another, into a scope that starts
    empty: the scope then holds exactly those instances, numbered 0, 1, ...,
    n-1 in the order they were saved.
   */
  lemma {:induction false} RepeatedSavesCountUp(t: seq<Record>, forFields: Option<seq<string>>, saves: seq<map<string, Value>>, q: Query)
    requires forall i :: 0 <= i < |saves| ==> ScopeQuery(forFields, saves[i]) == Ok(q)
    requires Scope(t, q) == []
    ensures Scope(SaveMany(t, forFields, saves), q) == Numbered(saves)
    decreases |saves|
  {
    if |saves| > 0 {
      var init := saves[..|saves| - 1];
      assert forall i :: 0 <= i < |init| ==> init[i] == saves[i];
      RepeatedSavesCountUp(t, forFields, init, q);
      SaveManyStep(t, forFields, saves, q);
    }
  }

  /** Three rows of course 1, ordered 1, 2 and 3. */
  function CourseOneRows(): seq<Record>
  {
    [Record(map["course" := Ref(1)], 1), Record(map["course" := Ref(1)], 2), Record(map["course" := Ref(1)], 3)]
  }

  /** Rows ordered 1, 2 and 3 give the next instance of the same course 4. */
  lemma SameCourseExample()
    ensures NextOrder(CourseOneRows(), Some(["course"]), map["course" := Ref(1)]) == Ok(4)
  {
    var c1 := map["course" := Ref(1)];
    var ff := Some(["course"]);
    var t := CourseOneRows();
    assert ScopeQuery(ff, c1) == Ok(c1);
    assert Scope(t, c1) == t by {
      var t1 := Stored([], c1, 1);
      var t2 := Stored(t1, c1, 2);
      assert forall k: nat :: Matches(Record(c1, k), c1);
      StoredJoinsScope([], c1, 1, c1);
      StoredJoinsScope(t1, c1, 2, c1);
      StoredJoinsScope(t2, c1, 3, c1);
      assert Stored(t2, c1, 3) == t;
    }
    assert MaxOrder(t) == Some(3);
  }

  /** The first instance of another course gets 0, whatever course 1 holds. */
  lemma OtherCourseExample()
    ensures NextOrder(CourseOneRows(), Some(["course"]), map["course" := Ref(2)]) == Ok(0)
  {
    var c1 := map["course" := Ref(1)];
    var c2 := map["course" := Ref(2)];
    assert ScopeQuery(Some(["course"]), c2) == Ok(c2);
    assert "course" in c2 && c1["course"] != c2["course"];
    ScopeOfOthers(CourseOneRows(), c2);
  }
}
