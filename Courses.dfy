/** The SQL text that find_courses in courses.py builds from the search
    criteria, before the database is called, and its string helpers
    remove_duplicates and clean_header. */
module Courses {
  import opened Wrappers
  import opened Text
  import opened Lists

  /** A value of args_from_ui: a string, an integer or a list of strings. */
  datatype Value = Str(s: string) | Int(n: int) | List(items: seq<string>)

  /** Python truthiness of a value. */
  predicate Truthy(v: Value) {
    match v
    case Str(s) => s != []
    case Int(n) => n != 0
    case List(xs) => xs != []
  }

  // ---------------------------------------------------------------------
  // remove_duplicates

  /** The list comprehension of remove_duplicates, scanning left to right
      with the set of the elements already seen. */
  function DedupFrom<T(==)>(xs: seq<T>, seen: set<T>): seq<T>
    decreases |xs|
  {
    if |xs| == 0 then []
    else if xs[0] in seen then DedupFrom(xs[1..], seen)
    else [xs[0]] + DedupFrom(xs[1..], seen + {xs[0]})
  }

  /** remove_duplicates(query_list). */
  function RemoveDuplicates<T(==)>(xs: seq<T>): seq<T> {
    DedupFrom(xs, {})
  }

  lemma {:induction false} DedupFromContinues<T>(p: seq<T>, xs: seq<T>, seen: set<T>)
    requires forall y :: y in seen <==> y in p
    decreases |xs|
    ensures FirstOccurrences(p) + DedupFrom(xs, seen) == FirstOccurrences(p + xs)
  {
    if |xs| == 0 {
      assert p + xs == p;
    } else {
      var x := xs[0];
      FirstOccurrencesSnoc(p, x);
      assert (p + [x]) + xs[1..] == p + xs;
      if x in p {
        DedupFromContinues(p + [x], xs[1..], seen);
        assert DedupFrom(xs, seen) == DedupFrom(xs[1..], seen);
        assert FirstOccurrences(p + [x]) == FirstOccurrences(p);
      } else {
        DedupFromContinues(p + [x], xs[1..], seen + {x});
        var d := DedupFrom(xs[1..], seen + {x});
        assert DedupFrom(xs, seen) == [x] + d;
        assert FirstOccurrences(p + [x]) == FirstOccurrences(p) + [x];
        assert FirstOccurrences(p) + ([x] + d) == (FirstOccurrences(p) + [x]) + d;
      }
    }
  }

  /** remove_duplicates keeps exactly the first occurrence of each element,
      in the original order. */
  lemma RemoveDuplicatesIsFirstOccurrences<T>(xs: seq<T>)
    ensures RemoveDuplicates(xs) == FirstOccurrences(xs)
  {
    DedupFromContinues([], xs, {});
    assert [] + xs == xs;
  }

  /** The result has no duplicates, the same elements as the input, and
      removing duplicates again changes nothing. */
  lemma RemoveDuplicatesSpec<T>(xs: seq<T>)
    ensures NoDuplicates(RemoveDuplicates(xs))
    ensures forall x :: x in RemoveDuplicates(xs) <==> x in xs
    ensures RemoveDuplicates(RemoveDuplicates(xs)) == RemoveDuplicates(xs)
  {
    RemoveDuplicatesIsFirstOccurrences(xs);
    FirstOccurrencesSpec(xs);
    var r := RemoveDuplicates(xs);
    RemoveDuplicatesIsFirstOccurrences(r);
    FirstOccurrencesOfDistinct(r);
  }

  // ---------------------------------------------------------------------
  // clean_header

  /** clean_header(s): the text after the first '.', or s itself when there
      is no '.'. */
  function CleanHeader(s: string): (r: string)
    ensures '.' !in s ==> r == s
    ensures '.' in s ==> |r| < |s| && s == s[..|s| - |r| - 1] + "." + r && '.' !in s[..|s| - |r| - 1]
  {
    var i := IndexOf(s, '.');
    if i < |s| then
      assert s == s[..i] + "." + s[i + 1..];
      s[i + 1..]
    else
      assert s[..i] == s;
      s
  }

  // ---------------------------------------------------------------------
  // find_courses: the parameter table

  /** One entry of parameters_dict. */
  datatype Param = Param(
    attributes: seq<string>,
    tables: seq<string>,
    joinCols: seq<string>,
    valueColumn: string,
    valueOperator: string,
    valueJoin: string)

  const CourseAttributes: seq<string> := ["courses.dept", "courses.course_num", "courses.title"]
  const TermsTables: seq<string> := ["courses", "catalog_index", "sections"]
  const TermsJoins: seq<string> :=
    ["courses.course_id = catalog_index.course_id", "courses.course_id = sections.course_id"]
  const DeptTables: seq<string> := ["courses"]
  const MeetingAttributes: seq<string> :=
    ["courses.dept", "courses.course_num", "sections.section_num", "meeting_patterns.day",
     "meeting_patterns.time_start", "meeting_patterns.time_end"]
  const MeetingTables: seq<string> := ["courses", "sections", "meeting_patterns"]
  const MeetingJoins: seq<string> :=
    ["courses.course_id = sections.course_id",
     "sections.meeting_pattern_id = meeting_patterns.meeting_pattern_id"]
  const WalkingAttributes: seq<string> :=
    MeetingAttributes + ["sections.building_code", "time_between(a.lon, a.lat, b.lon, b.lat) AS walking_time"]
  const WalkingTables: seq<string> := MeetingTables + ["gps AS a", "gps AS b"]
  const WalkingJoins: seq<string> := MeetingJoins + ["sections.building_code = a.building_code"]
  const EnrollAttributes: seq<string> := MeetingAttributes + ["sections.enrollment"]

  /** parameters_dict[key], when key is one of its keys. */
  function ParameterOf(key: string): Option<Param> {
    if key == "terms" then
      Some(Param(CourseAttributes, TermsTables, TermsJoins, "catalog_index.word", "=", " OR "))
    else if key == "dept" then Some(Param(CourseAttributes, DeptTables, [], "courses.dept", "=", " AND "))
    else if key == "day" then Some(Param(MeetingAttributes, MeetingTables, MeetingJoins, "meeting_patterns.day", "=", " OR "))
    else if key == "time_start" then
      Some(Param(MeetingAttributes, MeetingTables, MeetingJoins, "meeting_patterns.time_start", ">=", ""))
    else if key == "time_end" then
      Some(Param(MeetingAttributes, MeetingTables, MeetingJoins, "meeting_patterns.time_end", "<=", ""))
    else if key == "walking_time" then Some(Param(WalkingAttributes, WalkingTables, WalkingJoins, "walking_time", "<=", ""))
    else if key == "building" then Some(Param(WalkingAttributes, WalkingTables, WalkingJoins, "b.building_code", "=", ""))
    else if key == "enroll_lower" then
      Some(Param(EnrollAttributes, MeetingTables, MeetingJoins, "sections.enrollment", ">=", ""))
    else if key == "enroll_upper" then
      Some(Param(EnrollAttributes, MeetingTables, MeetingJoins, "sections.enrollment", "<=", ""))
    else None
  }

  /** The number of '?' placeholders in s. */
  function Marks(s: string): nat {
    multiset(s)['?']
  }

  /** The value column, the operator and the value join of an entry carry
      no '?' of their own. */
  predicate ParamNoMark(p: Param) {
    '?' !in p.valueColumn && '?' !in p.valueOperator && '?' !in p.valueJoin
  }

  lemma ParameterOfNoMark(key: string)
    requires ParameterOf(key).Some?
    ensures ParamNoMark(ParameterOf(key).value)
  {
    OperatorsNoMark();
    ColumnsNoMark1();
    ColumnsNoMark2();
    ColumnsNoMark3();
    ColumnsNoMark4();
  }

  lemma ColumnsNoMark1()
    ensures '?' !in "catalog_index.word" && '?' !in "courses.dept"
  {
  }

  lemma ColumnsNoMark2()
    ensures '?' !in "meeting_patterns.day" && '?' !in "meeting_patterns.time_start"
  {
  }

  lemma ColumnsNoMark3()
    ensures '?' !in "meeting_patterns.time_end" && '?' !in "walking_time"
  {
  }

  lemma ColumnsNoMark4()
    ensures '?' !in "b.building_code" && '?' !in "sections.enrollment"
  {
  }

  lemma OperatorsNoMark()
    ensures '?' !in "=" && '?' !in ">=" && '?' !in "<=" && '?' !in " OR " && '?' !in " AND " && '?' !in ""
  {
  }

  // ---------------------------------------------------------------------
  // find_courses: the clauses of one criterion

  /** The where string and the search arguments of one criterion whose
      value, after splitting the terms, is values. */
  function Clause(p: Param, values: Value): (string, seq<Value>) {
    var placeholder := p.valueColumn + " " + p.valueOperator + " ?";
    var isList := values.List? && |values.items| > 0;
    var searchValues := seq(if isList then |values.items| else 1, k => placeholder);
    var args := if isList then seq(|values.items|, k requires 0 <= k < |values.items| => Str(values.items[k])) else [values];
    var joined := Join(p.valueJoin, searchValues);
    (if |searchValues| > 1 then " (" + joined + ")" else joined, args)
  }

  /** The select, table, join, where and argument lists built so far. */
  datatype Gathered = Gathered(
    select: seq<string>,
    tables: seq<string>,
    joins: seq<string>,
    wheres: seq<string>,
    searchArgs: seq<Value>)

  /** One turn of the loop over args_from_ui: an unknown key contributes
      nothing; the terms value is split, which raises for a value that is
      not a string. */
  function AddCriterion(g: Gathered, key: string, v: Value): Result<Gathered> {
    match ParameterOf(key)
    case None => Success(g)
    case Some(p) =>
      if key == "terms" && !v.Str? then Failure(Attribute)
      else
        var values := if key == "terms" then List(Split(v.s)) else v;
        var (w, a) := Clause(p, values);
        Success(Gathered(g.select + p.attributes, g.tables + p.tables, g.joins + p.joinCols,
          g.wheres + [w], g.searchArgs + a))
  }

  /** The lists after the loop over the criteria, in the dictionary's order. */
  function Gather(args: seq<(string, Value)>): Result<Gathered>
    decreases |args|
  {
    if |args| == 0 then Success(Gathered([], [], [], [], []))
    else
      match Gather(args[..|args| - 1])
      case Failure(e) => Failure(e)
      case Success(g) => AddCriterion(g, args[|args| - 1].0, args[|args| - 1].1)
  }

  /** args_from_ui[key], the first entry with that key. */
  function Lookup(args: seq<(string, Value)>, key: string): (r: Option<Value>)
    ensures r.Some? <==> exists i :: 0 <= i < |args| && args[i].0 == key
    ensures r.Some? ==> exists i :: 0 <= i < |args| && args[i] == (key, r.value)
  {
    if |args| == 0 then None
    else if args[0].0 == key then Some(args[0].1)
    else Lookup(args[1..], key)
  }

  /** The continuation line of the literal keeps its indentation, 19
      spaces, inside the string. */
  const GroupBy: string := " GROUP BY catalog_index.course_id, sections.section_num" + "                   "
  const Having: string := "HAVING COUNT(catalog_index.course_id) = "

  /** val_term: the GROUP BY ... HAVING suffix when terms are searched. */
  function ValTerm(args: seq<(string, Value)>): string {
    match Lookup(args, "terms")
    case Some(Str(s)) => GroupBy + (Having + NatToString(|Split(s)|))
    case _ => ""
  }

  /** The select, from and on parts of query_string. */
  function Body(g: Gathered): string {
    "SELECT " + Join(", ", RemoveDuplicates(g.select))
    + " FROM " + Join(" JOIN ", RemoveDuplicates(g.tables))
    + " ON " + Join(" AND ", RemoveDuplicates(g.joins))
  }

  /** query_string, from the gathered lists. */
  function QueryText(g: Gathered, valTerm: string): string {
    (Body(g) + " WHERE " + Join(" AND ", g.wheres)) + valTerm
  }

  /** The query string and search_arg_list that find_courses passes to
      execute. */
  function Query(args: seq<(string, Value)>): Result<(string, seq<Value>)> {
    match Gather(args)
    case Failure(e) => Failure(e)
    case Success(g) => Success((QueryText(g, ValTerm(args)), g.searchArgs))
  }

  /** The loop of find_courses (lines 142-190) building the query. */
  method FindCoursesQuery(args: seq<(string, Value)>) returns (r: Result<(string, seq<Value>)>)
    ensures r == Query(args)
  {
    var select: seq<string> := [];
    var tables: seq<string> := [];
    var joins: seq<string> := [];
    var wheres: seq<string> := [];
    var searchArgs: seq<Value> := [];
    var i := 0;
    while i < |args|
      invariant 0 <= i <= |args|
      invariant Gather(args[..i]) == Success(Gathered(select, tables, joins, wheres, searchArgs))
    {
      var (key, v) := args[i];
      GatherStep(args, i);
      var param := ParameterOf(key);
      if param.Some? {
        var p := param.value;
        if key == "terms" && !v.Str? {
          GatherFailureStays(args, i + 1);
          return Failure(Attribute);
        }
        select := select + p.attributes;
        tables := tables + p.tables;
        joins := joins + p.joinCols;
        var values := v;
        if key == "terms" {
          values := List(Split(v.s));
        }
        var whereString, added := BuildClause(p, values);
        wheres := wheres + [whereString];
        searchArgs := searchArgs + added;
      }
      i := i + 1;
    }
    assert args[..i] == args;
    var g := Gathered(select, tables, joins, wheres, searchArgs);
    var valTerm := "";
    var terms := Lookup(args, "terms");
    if terms.Some? && terms.value.Str? {
      valTerm := GroupBy + (Having + NatToString(|Split(terms.value.s)|));
    }
    r := Success(("SELECT " + Join(", ", RemoveDuplicates(select))
      + " FROM " + Join(" JOIN ", RemoveDuplicates(tables))
      + " ON " + Join(" AND ", RemoveDuplicates(joins))
      + " WHERE " + Join(" AND ", wheres) + valTerm, searchArgs));
  }

  /** Lines 157-175: the placeholders and search arguments of one
      criterion, and its where string. */
  method BuildClause(p: Param, values: Value) returns (whereString: string, added: seq<Value>)
    ensures (whereString, added) == Clause(p, values)
  {
    var searchValues: seq<string> := [];
    var placeholder := p.valueColumn + " " + p.valueOperator + " ?";
    if values.List? && |values.items| > 0 {
      added := [];
      var k := 0;
      while k < |values.items|
        invariant 0 <= k <= |values.items|
        invariant |searchValues| == k && forall j :: 0 <= j < k ==> searchValues[j] == placeholder
        invariant |added| == k && forall j :: 0 <= j < k ==> added[j] == Str(values.items[j])
      {
        searchValues := searchValues + [placeholder];
        added := added + [Str(values.items[k])];
        k := k + 1;
      }
      assert searchValues == seq(|values.items|, j => placeholder);
      assert added == seq(|values.items|, j requires 0 <= j < |values.items| => Str(values.items[j]));
    } else {
      searchValues := [placeholder];
      added := [values];
    }
    if |searchValues| > 1 {
      whereString := " (" + Join(p.valueJoin, searchValues) + ")";
    } else {
      whereString := Join(p.valueJoin, searchValues);
    }
  }

  lemma GatherStep(args: seq<(string, Value)>, i: nat)
    requires i < |args| && Gather(args[..i]).Success?
    ensures Gather(args[..i + 1]) == AddCriterion(Gather(args[..i]).value, args[i].0, args[i].1)
  {
    assert args[..i + 1][..i] == args[..i];
  }

  /** Once the loop has raised, the rest of the criteria do not matter. */
  lemma {:induction false} GatherFailureStays(args: seq<(string, Value)>, n: nat)
    requires n <= |args| && Gather(args[..n]).Failure?
    decreases |args| - n
    ensures Gather(args) == Gather(args[..n])
  {
    if n < |args| {
      assert args[..n + 1][..n] == args[..n];
      GatherFailureStays(args, n + 1);
    } else {
      assert args[..n] == args;
    }
  }

  // ---------------------------------------------------------------------
  // find_courses: what the query promises

  /** The placeholders in a list of strings. */
  function SumMarks(xs: seq<string>): nat
    decreases |xs|
  {
    if |xs| == 0 then 0 else SumMarks(xs[..|xs| - 1]) + Marks(xs[|xs| - 1])
  }

  /** Joining with a separator free of '?' adds no placeholder. */
  lemma {:induction false} JoinMarks(sep: string, xs: seq<string>)
    requires '?' !in sep
    decreases |xs|
    ensures Marks(Join(sep, xs)) == SumMarks(xs)
  {
    if |xs| == 1 {
      assert xs[..0] == [];
    } else if |xs| > 1 {
      JoinMarks(sep, xs[..|xs| - 1]);
      assert multiset(sep)['?'] == 0;
    }
  }

  lemma {:induction false} RepeatMarks(s: string, n: nat)
    decreases n
    ensures SumMarks(seq(n, k => s)) == n * Marks(s)
  {
    if n > 0 {
      RepeatMarks(s, n - 1);
      assert seq(n, k => s)[..n - 1] == seq(n - 1, k => s);
    }
  }

  /** One criterion gives at least one search argument: the list's
      elements when the value is a non-empty list, and the value itself
      otherwise, so that a falsy value still gets one placeholder. */
  lemma ClauseArguments(p: Param, values: Value)
    ensures var a := Clause(p, values).1;
      && |a| >= 1
      && (!Truthy(values) ==> a == [values])
      && (!values.List? ==> a == [values])
      && (values.List? && values.items != [] ==>
            |a| == |values.items| && forall k :: 0 <= k < |a| ==> a[k] == Str(values.items[k]))
  {
  }

  /** The where string of one criterion holds exactly one placeholder per
      search argument. */
  lemma ClauseMarks(p: Param, values: Value)
    requires ParamNoMark(p)
    ensures Marks(Clause(p, values).0) == |Clause(p, values).1|
  {
    var placeholder := p.valueColumn + " " + p.valueOperator + " ?";
    var n := |Clause(p, values).1|;
    assert Marks(placeholder) == 1 by {
      assert multiset(" ")['?'] == 0;
      assert multiset(" ?")['?'] == 1;
    }
    var searchValues := seq(n, k => placeholder);
    var joined := Join(p.valueJoin, searchValues);
    assert Marks(joined) == n by {
      RepeatMarks(placeholder, n);
      JoinMarks(p.valueJoin, searchValues);
    }
    if n > 1 {
      assert Clause(p, values).0 == " (" + joined + ")";
      assert multiset(" (")['?'] == 0 && multiset(")")['?'] == 0;
    }
  }

  /** The where string of a criterion is parenthesised when it has more
      than one placeholder and is the single comparison otherwise. */
  lemma ClauseParentheses(p: Param, values: Value)
    ensures var w := Clause(p, values).0;
      && (|Clause(p, values).1| > 1 ==> |w| >= 3 && w[..2] == " (" && w[|w| - 1] == ')')
      && (|Clause(p, values).1| == 1 ==> w == p.valueColumn + " " + p.valueOperator + " ?")
  {
    var placeholder := p.valueColumn + " " + p.valueOperator + " ?";
    if |Clause(p, values).1| == 1 {
      assert seq(1, k => placeholder) == [placeholder];
    }
  }

  /** The where clauses hold exactly one '?' per search argument. */
  lemma {:induction false} WherePlaceholders(args: seq<(string, Value)>)
    requires Gather(args).Success?
    decreases |args|
    ensures Marks(Join(" AND ", Gather(args).value.wheres)) == |Gather(args).value.searchArgs|
  {
    var g := Gather(args).value;
    assert '?' !in " AND ";
    JoinMarks(" AND ", g.wheres);
    if |args| > 0 {
      var init := args[..|args| - 1];
      var (key, v) := args[|args| - 1];
      WherePlaceholders(init);
      var h := Gather(init).value;
      JoinMarks(" AND ", h.wheres);
      if ParameterOf(key).Some? {
        var p := ParameterOf(key).value;
        ParameterOfNoMark(key);
        var values := if key == "terms" then List(Split(v.s)) else v;
        ClauseMarks(p, values);
        assert g.wheres[..|g.wheres| - 1] == h.wheres;
      }
    }
  }

  /** find_courses raises exactly when the terms value is not a string. */
  lemma {:induction false} GatherFails(args: seq<(string, Value)>)
    decreases |args|
    ensures Gather(args).Failure? <==> exists i :: 0 <= i < |args| && args[i].0 == "terms" && !args[i].1.Str?
    ensures Gather(args).Failure? ==> Gather(args).error == Attribute
  {
    if |args| > 0 {
      var init := args[..|args| - 1];
      GatherFails(init);
      if Gather(init).Failure? {
        var i :| 0 <= i < |init| && init[i].0 == "terms" && !init[i].1.Str?;
        assert args[i] == init[i];
      } else {
        forall i | 0 <= i < |args| - 1
          ensures !(args[i].0 == "terms" && !args[i].1.Str?)
        {
          assert args[i] == init[i];
        }
      }
    }
  }

  /** The criteria whose key is in parameters_dict, in order. */
  function Known(args: seq<(string, Value)>): (r: seq<(string, Value)>)
    decreases |args|
    ensures forall i :: 0 <= i < |r| ==> ParameterOf(r[i].0).Some?
  {
    if |args| == 0 then []
    else
      var init := Known(args[..|args| - 1]);
      if ParameterOf(args[|args| - 1].0).Some? then init + [args[|args| - 1]] else init
  }

  lemma {:induction false} LookupSnoc(args: seq<(string, Value)>, x: (string, Value), key: string)
    decreases |args|
    ensures Lookup(args + [x], key) == if Lookup(args, key).Some? then Lookup(args, key) else if x.0 == key then Some(x.1) else None
  {
    if |args| > 0 {
      LookupSnoc(args[1..], x, key);
      assert (args + [x])[1..] == args[1..] + [x];
    }
  }

  lemma {:induction false} GatherKnown(args: seq<(string, Value)>)
    decreases |args|
    ensures Gather(Known(args)) == Gather(args)
    ensures Lookup(Known(args), "terms") == Lookup(args, "terms")
  {
    if |args| > 0 {
      var init := args[..|args| - 1];
      var x := args[|args| - 1];
      assert args == init + [x];
      GatherKnown(init);
      LookupSnoc(init, x, "terms");
      if ParameterOf(x.0).Some? {
        assert (Known(init) + [x])[..|Known(init)|] == Known(init);
        LookupSnoc(Known(init), x, "terms");
      }
    }
  }

  /** Keys of args_from_ui that are not in parameters_dict contribute
      nothing to the query or to the search arguments. */
  lemma UnknownKeysIgnored(args: seq<(string, Value)>)
    ensures Query(Known(args)) == Query(args)
  {
    GatherKnown(args);
  }

  predicate HasSuffix(q: string, d: string) {
    |d| <= |q| && q[|q| - |d|..] == d
  }

  lemma SuffixIs(a: string, b: string, c: string)
    ensures HasSuffix(a + (b + c), c)
  {
  }

  lemma EndsWith(a: string, b: string, c: string)
    ensures HasSuffix(a + b + c + "", b + c)
  {
    assert a + b + c + "" == a + (b + c);
  }

  /** When terms are searched, the query ends by requiring as many matching
      index words as there are whitespace-separated terms. */
  lemma HavingSuffix(args: seq<(string, Value)>, v: Value)
    requires Query(args).Success? && Lookup(args, "terms") == Some(v)
    ensures v.Str?
    ensures HasSuffix(Query(args).value.0, Having + NatToString(|Split(v.s)|))
  {
    GatherFails(args);
    var i :| 0 <= i < |args| && args[i] == ("terms", v);
    assert v.Str?;
    var g := Gather(args).value;
    var n := NatToString(|Split(v.s)|);
    var x := Body(g) + " WHERE " + Join(" AND ", g.wheres);
    assert ValTerm(args) == GroupBy + (Having + n);
    var q := Query(args).value.0;
    assert q == x + (GroupBy + (Having + n));
    SuffixIs(x, GroupBy, Having + n);
  }

  /** Without terms the query ends with the where clauses. */
  lemma WhereSuffix(args: seq<(string, Value)>)
    requires Query(args).Success? && Lookup(args, "terms").None?
    ensures HasSuffix(Query(args).value.0, " WHERE " + Join(" AND ", Gather(args).value.wheres))
  {
    var g := Gather(args).value;
    assert Query(args).value.0 == Body(g) + " WHERE " + Join(" AND ", g.wheres) + "";
    EndsWith(Body(g), " WHERE ", Join(" AND ", g.wheres));
  }
}
