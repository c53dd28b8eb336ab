/** The flat option table (optspp::options): a list of shared option objects,
    a name-conflict check over it, and the token loop that matches command
    line arguments against the options' long and short names. */
module Options {
  import opened Common

  /** The errors the table raises (the `exception::` kinds it throws). */
  datatype OptionsError =
    | LongNameConflict(name: string)
    | ShortNameConflict(c: char)
    | UnknownLongParameter(name: string)
    | LongParameterRequiresValue(name: string)
    | InvalidLongParameterValue(name: string, value: string)
    | UnknownShortParameter(c: char)
    | ShortParameterRequiresValue(c: char)
    | InvalidShortParameterValue(c: char, value: string)

  /** The only long prefix and the only short prefix: the table's prefix
      lists are private, hold one entry each and are never changed. */
  const LongPrefix: string := "--"
  const ShortPrefix: string := "-"

  /** One option, shared by pointer: two options are the same option only
      when they are the same object.  `validValue` stands for the option's
      `is_valid_value` test. */
  class Opt {
    const longName: string
    const longSynonyms: seq<string>
    const shortName: char
    const shortSynonyms: seq<char>
    const implicitValues: seq<string>
    const validValue: string -> bool

    constructor (longName: string, longSynonyms: seq<string>, shortName: char, shortSynonyms: seq<char>,
                 implicitValues: seq<string>, validValue: string -> bool)
      ensures this.longName == longName && this.longSynonyms == longSynonyms
      ensures this.shortName == shortName && this.shortSynonyms == shortSynonyms
      ensures this.implicitValues == implicitValues
      ensures forall v :: this.validValue(v) == validValue(v)
    {
      this.longName := longName;
      this.longSynonyms := longSynonyms;
      this.shortName := shortName;
      this.shortSynonyms := shortSynonyms;
      this.implicitValues := implicitValues;
      this.validValue := validValue;
    }

    /** A new option object with the same contents as `o`. */
    constructor Copy(o: Opt)
      ensures SameContents(this, o)
    {
      longName := o.longName;
      longSynonyms := o.longSynonyms;
      shortName := o.shortName;
      shortSynonyms := o.shortSynonyms;
      implicitValues := o.implicitValues;
      validValue := o.validValue;
    }
  }

  ghost predicate SameContents(a: Opt, b: Opt) {
    && a.longName == b.longName && a.longSynonyms == b.longSynonyms
    && a.shortName == b.shortName && a.shortSynonyms == b.shortSynonyms
    && a.implicitValues == b.implicitValues
    && forall v :: a.validValue(v) == b.validValue(v)
  }

  /** The long names compared by `check`: the synonyms, then the name. */
  function LongList(o: Opt): seq<string> {
    o.longSynonyms + [o.longName]
  }

  function ShortList(o: Opt): seq<char> {
    o.shortSynonyms + [o.shortName]
  }

  predicate AnswersLong(o: Opt, name: string) {
    o.longName == name || name in o.longSynonyms
  }

  predicate AnswersShort(o: Opt, c: char) {
    o.shortName == c || c in o.shortSynonyms
  }

  /* ---------------------------------------------------------------------
     The list operations
     --------------------------------------------------------------------- */

  /** `opts` with every occurrence of `o` removed, the rest in order. */
  function Without(opts: seq<Opt>, o: Opt): (r: seq<Opt>)
    ensures forall k :: 0 <= k < |r| ==> r[k] in opts && r[k] != o
    ensures forall k :: 0 <= k < |opts| && opts[k] != o ==> opts[k] in r
    ensures |r| <= |opts|
  {
    if opts == [] then []
    else if opts[0] == o then Without(opts[1..], o)
    else [opts[0]] + Without(opts[1..], o)
  }

  /** `operator<<` on a pointer: the option is appended only when absent. */
  function Adjoin(opts: seq<Opt>, o: Opt): (r: seq<Opt>)
    ensures o in r
    ensures forall k :: 0 <= k < |opts| ==> opts[k] in r
    ensures forall k :: 0 <= k < |r| ==> r[k] in opts || r[k] == o
    ensures |r| <= |opts| + 1
  {
    if o in opts then opts else opts + [o]
  }

  lemma {:induction false} WithoutAbsent(opts: seq<Opt>, o: Opt)
    requires o !in opts
    ensures Without(opts, o) == opts
  {
    if opts != [] {
      WithoutAbsent(opts[1..], o);
    }
  }

  lemma {:induction false} WithoutAppend(a: seq<Opt>, b: seq<Opt>, o: Opt)
    ensures Without(a + b, o) == Without(a, o) + Without(b, o)
  {
    if a != [] {
      assert a + b != [] && (a + b)[0] == a[0] && (a + b)[1..] == a[1..] + b;
      WithoutAppend(a[1..], b, o);
      if a[0] == o {
        assert Without(a + b, o) == Without(a[1..] + b, o);
        assert Without(a, o) == Without(a[1..], o);
      } else {
        assert Without(a + b, o) == [a[0]] + Without(a[1..] + b, o);
        assert Without(a, o) == [a[0]] + Without(a[1..], o);
        assert [a[0]] + (Without(a[1..], o) + Without(b, o)) == ([a[0]] + Without(a[1..], o)) + Without(b, o);
      }
    } else {
      assert a + b == b;
    }
  }

  /** Erasing an option undoes adding it. */
  lemma EraseUndoesAdd(opts: seq<Opt>, o: Opt)
    requires o !in opts
    ensures Without(opts + [o], o) == opts
  {
    WithoutAppend(opts, [o], o);
    WithoutAbsent(opts, o);
    assert Without([o], o) == [];
  }

  /** Erasing twice is erasing once. */
  lemma EraseIdempotent(opts: seq<Opt>, o: Opt)
    ensures Without(Without(opts, o), o) == Without(opts, o)
  {
    WithoutAbsent(Without(opts, o), o);
  }

  /** Adding the same option twice with `<<` is adding it once. */
  lemma AdjoinIdempotent(opts: seq<Opt>, o: Opt)
    ensures Adjoin(Adjoin(opts, o), o) == Adjoin(opts, o)
  {
  }

  /** `Without` keeps the other options in their order: it is what is left
      of the list after striking out `o`, and every option before a kept one
      is kept before it. */
  lemma {:induction false} WithoutKeepsOrder(opts: seq<Opt>, o: Opt, i: nat, j: nat)
    requires i < j < |opts| && opts[i] != o && opts[j] != o
    ensures exists p, q :: 0 <= p < q < |Without(opts, o)| && Without(opts, o)[p] == opts[i] && Without(opts, o)[q] == opts[j]
  {
    var rest := Without(opts[1..], o);
    if i == 0 {
      assert opts[j] == opts[1..][j - 1];
      assert opts[j] in rest;
      var q :| 0 <= q < |rest| && rest[q] == opts[j];
      assert Without(opts, o) == [opts[0]] + rest;
      assert Without(opts, o)[0] == opts[i] && Without(opts, o)[q + 1] == opts[j];
    } else {
      WithoutKeepsOrder(opts[1..], o, i - 1, j - 1);
      var p, q :| 0 <= p < q < |rest| && rest[p] == opts[i] && rest[q] == opts[j];
      if opts[0] == o {
        assert Without(opts, o) == rest;
      } else {
        assert Without(opts, o) == [opts[0]] + rest;
        assert Without(opts, o)[p + 1] == opts[i] && Without(opts, o)[q + 1] == opts[j];
      }
    }
  }

  /* ---------------------------------------------------------------------
     The conflict check
     --------------------------------------------------------------------- */

  /** The conflict `check` reports for the ordered pair (a, b): a shared long
      name first, otherwise a shared short name. */
  function PairConflict(a: Opt, b: Opt): (r: Option<OptionsError>)
    ensures r.None? <==> !SharesLong(a, b) && !SharesShort(a, b)
    ensures r.Some? && r.value.LongNameConflict? ==> r.value.name in LongList(a) && r.value.name in LongList(b)
    ensures r.Some? && r.value.ShortNameConflict? ==> !SharesLong(a, b) && r.value.c in ShortList(a) && r.value.c in ShortList(b)
    ensures r.Some? ==> r.value.LongNameConflict? || r.value.ShortNameConflict?
  {
    match FirstCommon(LongList(a), LongList(b))
    case Some(n) => Some(LongNameConflict(n))
    case None =>
      match FirstCommon(ShortList(a), ShortList(b))
      case Some(c) => Some(ShortNameConflict(c))
      case None => None
  }

  predicate SharesLong(a: Opt, b: Opt) {
    exists s :: s in LongList(a) && s in LongList(b)
  }

  predicate SharesShort(a: Opt, b: Opt) {
    exists c :: c in ShortList(a) && c in ShortList(b)
  }

  /** The first conflict met by the two nested loops of `check`, scanning
      the positions (i, j) in order from (i, j) on, only for i < j. */
  function ConflictFrom(opts: seq<Opt>, i: nat, j: nat): Option<OptionsError>
    requires i <= |opts| && j <= |opts|
    decreases |opts| - i, |opts| - j
  {
    if i == |opts| then None
    else if j == |opts| then ConflictFrom(opts, i + 1, 0)
    else if i < j && PairConflict(opts[i], opts[j]).Some? then PairConflict(opts[i], opts[j])
    else ConflictFrom(opts, i, j + 1)
  }

  /** No two options at distinct positions share a long or a short name. */
  predicate NamesDistinct(opts: seq<Opt>) {
    forall i, j :: 0 <= i < j < |opts| ==> PairConflict(opts[i], opts[j]).None?
  }

  /** Row `i` of the scan has no conflict from column `j` on. */
  predicate RowClear(opts: seq<Opt>, i: nat, j: nat) {
    forall m :: j <= m < |opts| && i < m && i < |opts| ==> PairConflict(opts[i], opts[m]).None?
  }

  /** No conflict between two options both after position `i`. */
  predicate RowsClear(opts: seq<Opt>, i: nat) {
    forall l, m :: i < l < m < |opts| ==> PairConflict(opts[l], opts[m]).None?
  }

  lemma RowsClearStep(opts: seq<Opt>, i: nat)
    requires i < |opts|
    ensures RowsClear(opts, i) <==> RowClear(opts, i + 1, 0) && RowsClear(opts, i + 1)
  {
    if RowClear(opts, i + 1, 0) && RowsClear(opts, i + 1) {
      forall l, m | i < l < m < |opts| ensures PairConflict(opts[l], opts[m]).None? {
        if l > i + 1 {
          assert i + 1 < l < m < |opts|;
        }
      }
    }
  }

  lemma RowClearStep(opts: seq<Opt>, i: nat, j: nat)
    requires i < |opts| && j < |opts|
    ensures RowClear(opts, i, j) <==> (i < j ==> PairConflict(opts[i], opts[j]).None?) && RowClear(opts, i, j + 1)
  {
  }

  lemma {:induction false} ConflictFromNone(opts: seq<Opt>, i: nat, j: nat)
    requires i <= |opts| && j <= |opts|
    ensures ConflictFrom(opts, i, j).None? <==> RowClear(opts, i, j) && RowsClear(opts, i)
    decreases |opts| - i, |opts| - j
  {
    if i == |opts| {
    } else if j == |opts| {
      ConflictFromNone(opts, i + 1, 0);
      RowsClearStep(opts, i);
    } else {
      ConflictFromNone(opts, i, j + 1);
      RowClearStep(opts, i, j);
    }
  }

  lemma {:induction false} ConflictFromWitness(opts: seq<Opt>, i: nat, j: nat)
    requires i <= |opts| && j <= |opts| && ConflictFrom(opts, i, j).Some?
    ensures exists l, m :: 0 <= l < m < |opts| && PairConflict(opts[l], opts[m]) == ConflictFrom(opts, i, j)
    decreases |opts| - i, |opts| - j
  {
    if i == |opts| {
    } else if j == |opts| {
      ConflictFromWitness(opts, i + 1, 0);
    } else if i < j && PairConflict(opts[i], opts[j]).Some? {
    } else {
      ConflictFromWitness(opts, i, j + 1);
    }
  }

  /** `check` passes exactly when the names are distinct across positions;
      a reported conflict names a long (or short) name two options share. */
  lemma CheckSpec(opts: seq<Opt>)
    ensures ConflictFrom(opts, 0, 0).None? <==> NamesDistinct(opts)
    ensures ConflictFrom(opts, 0, 0).Some? ==> exists l, m :: 0 <= l < m < |opts| && PairConflict(opts[l], opts[m]) == ConflictFrom(opts, 0, 0)
  {
    ConflictFromNone(opts, 0, 0);
    if ConflictFrom(opts, 0, 0).Some? {
      ConflictFromWitness(opts, 0, 0);
    }
  }

  /** The same option object twice in the list is always a conflict: it
      shares its own long name. */
  lemma DuplicateConflicts(opts: seq<Opt>, i: nat, j: nat)
    requires i < j < |opts| && SameContents(opts[i], opts[j])
    ensures ConflictFrom(opts, 0, 0).Some?
  {
    assert opts[i].longName in LongList(opts[i]) && opts[j].longName in LongList(opts[j]);
    assert PairConflict(opts[i], opts[j]).Some?;
    CheckSpec(opts);
  }

  /** The body of the loops of `check` for one pair: long names, then short
      names. */
  method CheckPair(a: Opt, b: Opt) returns (r: Option<OptionsError>)
    ensures r == PairConflict(a, b)
  {
    var long := FirstShared(LongList(a), LongList(b));
    if long.Some? {
      return Some(LongNameConflict(long.value));
    }
    var short := FirstShared(ShortList(a), ShortList(b));
    if short.Some? {
      return Some(ShortNameConflict(short.value));
    }
    return None;
  }

  /** The first element of `lhs` found in `rhs`, by the nested loops of
      `check`. */
  method FirstShared<T(==)>(lhs: seq<T>, rhs: seq<T>) returns (r: Option<T>)
    ensures r == FirstCommon(lhs, rhs)
  {
    var a := 0;
    while a < |lhs|
      invariant a <= |lhs|
      invariant forall k :: 0 <= k < a ==> lhs[k] !in rhs
    {
      var b := 0;
      while b < |rhs|
        invariant b <= |rhs|
        invariant forall k :: 0 <= k < b ==> rhs[k] != lhs[a]
      {
        if lhs[a] == rhs[b] {
          FirstCommonAt(lhs, rhs, a);
          return Some(lhs[a]);
        }
        b := b + 1;
      }
      a := a + 1;
    }
    r := None;
  }

  lemma {:induction false} FirstCommonAt<T>(lhs: seq<T>, rhs: seq<T>, a: nat)
    requires a < |lhs| && lhs[a] in rhs && forall k :: 0 <= k < a ==> lhs[k] !in rhs
    ensures FirstCommon(lhs, rhs) == Some(lhs[a])
  {
    var p := (x: T) => x in rhs;
    assert p(lhs[a]);
  }

  /* ---------------------------------------------------------------------
     Lookup by name
     --------------------------------------------------------------------- */

  /** The first option in list order answering to the long name. */
  function LookupLong(opts: seq<Opt>, name: string): (r: Option<Opt>)
    ensures r.None? <==> forall k :: 0 <= k < |opts| ==> !AnswersLong(opts[k], name)
    ensures r.Some? ==> exists k :: 0 <= k < |opts| && opts[k] == r.value && AnswersLong(r.value, name) &&
                                    forall m :: 0 <= m < k ==> !AnswersLong(opts[m], name)
  {
    match FirstIndex(opts, (o: Opt) => AnswersLong(o, name))
    case Some(k) => Some(opts[k])
    case None => None
  }

  function LookupShort(opts: seq<Opt>, c: char): (r: Option<Opt>)
    ensures r.None? <==> forall k :: 0 <= k < |opts| ==> !AnswersShort(opts[k], c)
    ensures r.Some? ==> exists k :: 0 <= k < |opts| && opts[k] == r.value && AnswersShort(r.value, c) &&
                                    forall m :: 0 <= m < k ==> !AnswersShort(opts[m], c)
  {
    match FirstIndex(opts, (o: Opt) => AnswersShort(o, c))
    case Some(k) => Some(opts[k])
    case None => None
  }

  /** When the names are distinct, the option answering to a long name is
      unique, so the lookup does not depend on list order. */
  lemma LookupLongUnique(opts: seq<Opt>, name: string, k: nat)
    requires NamesDistinct(opts) && k < |opts| && AnswersLong(opts[k], name)
    ensures LookupLong(opts, name) == Some(opts[k])
  {
    forall m | 0 <= m < |opts| && m != k
      ensures !AnswersLong(opts[m], name)
    {
      var l, h := if m < k then m else k, if m < k then k else m;
      assert PairConflict(opts[l], opts[h]).None?;
      NotBothLong(opts[l], opts[h], name);
    }
  }

  lemma LookupShortUnique(opts: seq<Opt>, c: char, k: nat)
    requires NamesDistinct(opts) && k < |opts| && AnswersShort(opts[k], c)
    ensures LookupShort(opts, c) == Some(opts[k])
  {
    forall m | 0 <= m < |opts| && m != k
      ensures !AnswersShort(opts[m], c)
    {
      var l, h := if m < k then m else k, if m < k then k else m;
      assert PairConflict(opts[l], opts[h]).None?;
      NotBothShort(opts[l], opts[h], c);
    }
  }

  lemma NotBothLong(a: Opt, b: Opt, name: string)
    requires !SharesLong(a, b)
    ensures !(AnswersLong(a, name) && AnswersLong(b, name))
  {
    assert AnswersLong(a, name) ==> name in LongList(a);
    assert AnswersLong(b, name) ==> name in LongList(b);
  }

  lemma NotBothShort(a: Opt, b: Opt, c: char)
    requires !SharesShort(a, b)
    ensures !(AnswersShort(a, c) && AnswersShort(b, c))
  {
    assert AnswersShort(a, c) ==> c in ShortList(a);
    assert AnswersShort(b, c) ==> c in ShortList(b);
  }

  /* ---------------------------------------------------------------------
     The token loop (parse_ and its handlers), as functions of the state
     --------------------------------------------------------------------- */

  /** The parse state: the stored values, the cursor into the arguments,
      and the error raised, if any. */
  datatype State = State(values: map<Opt, seq<string>>, it: nat, error: Option<OptionsError>)

  /** How the loop ends.  `Stuck(at)`: an iteration left the cursor and the
      values unchanged at `at`, so the loop repeats it forever. */
  datatype Status = Completed | Raised(error: OptionsError) | Stuck(at: nat)

  datatype Parsed = Parsed(status: Status, values: map<Opt, seq<string>>)

  /** `values_[o].push_back(v)`: a missing entry starts out empty. */
  function Appended(values: map<Opt, seq<string>>, o: Opt, v: string): (r: map<Opt, seq<string>>)
    ensures r.Keys == values.Keys + {o}
    ensures r[o] == (if o in values then values[o] else []) + [v]
    ensures forall x :: x in values && x != o ==> r[x] == values[x]
  {
    values[o := (if o in values then values[o] else []) + [v]]
  }

  /** The option `o`, matched by the token at `it`, takes its value: the
      next argument if there is one and it is valid, else its implicit
      values at the end of the input. */
  function TakeValue(args: seq<string>, values: map<Opt, seq<string>>, it: nat, o: Opt,
                     missing: OptionsError, invalid: string -> OptionsError): (r: State)
    requires it < |args|
    ensures r.it == it + 1 || r.it == it + 2
    ensures r.it <= |args|
    ensures r.error.None? <==> if it + 1 == |args| then |o.implicitValues| > 0 else o.validValue(args[it + 1])
    ensures r.error.Some? ==> && r.it == it + 1 && r.values == values
                              && r.error.value == if it + 1 == |args| then missing else invalid(args[it + 1])
    ensures r.error.None? ==> && r.values.Keys == values.Keys + {o}
                              && (forall x :: x in values && x != o ==> r.values[x] == values[x])
                              && if it + 1 == |args| then r.it == it + 1 && r.values[o] == o.implicitValues
                                 else r.it == it + 2 && r.values[o] == (if o in values then values[o] else []) + [args[it + 1]]
  {
    if it + 1 == |args| then
      if |o.implicitValues| > 0 then State(values[o := o.implicitValues], it + 1, None)
      else State(values, it + 1, Some(missing))
    else if o.validValue(args[it + 1]) then State(Appended(values, o, args[it + 1]), it + 2, None)
    else State(values, it + 1, Some(invalid(args[it + 1])))
  }

  /** `try_long_name_`. */
  function LongStep(opts: seq<Opt>, args: seq<string>, st: State): (r: State)
    requires st.it < |args| && st.error.None?
    ensures st.it <= r.it <= |args|
    ensures r.it == st.it && r.error.None? ==> r == st
  {
    var token := args[st.it];
    if !StartsWith(token, LongPrefix) then st
    else
      var name := token[|LongPrefix|..];
      match LookupLong(opts, name)
      case None => st.(error := Some(UnknownLongParameter(name)))
      case Some(o) =>
        TakeValue(args, st.values, st.it, o, LongParameterRequiresValue(name),
                  v => InvalidLongParameterValue(name, v))
  }

  /** The loop of `try_short_name_` over the characters of a cluster, from
      the `i`-th on. */
  function ClusterStep(opts: seq<Opt>, args: seq<string>, names: string, i: nat, st: State): (r: State)
    requires st.it < |args| && st.error.None? && i <= |names|
    ensures st.it <= r.it <= |args|
    ensures i < |names| && r.error.None? ==> r.it > st.it
    ensures r.it == st.it && r.error.None? ==> r == st
    decreases |names| - i
  {
    if i == |names| then st
    else
      var c := names[i];
      match LookupShort(opts, c)
      case None => st.(error := Some(UnknownShortParameter(c)))
      case Some(o) =>
        if i == |names| - 1 then
          TakeValue(args, st.values, st.it, o, ShortParameterRequiresValue(c),
                    v => InvalidShortParameterValue(c, v))
        else if |o.implicitValues| > 0 then
          ClusterStep(opts, args, names, i + 1, st.(values := st.values[o := o.implicitValues]))
        else st.(error := Some(ShortParameterRequiresValue(c)))
  }

  /** `try_short_name_`. */
  function ShortStep(opts: seq<Opt>, args: seq<string>, st: State): (r: State)
    requires st.it < |args| && st.error.None?
    ensures st.it <= r.it <= |args|
    ensures r.it == st.it && r.error.None? ==> r == st
  {
    var token := args[st.it];
    if !StartsWith(token, ShortPrefix) then st
    else ClusterStep(opts, args, token[|ShortPrefix|..], 0, st)
  }

  /** One iteration of the loop of `parse_`: the long handler, then (unless
      the input is used up) the short handler on whatever token the cursor
      now holds; the positional handler does nothing. */
  function Iteration(opts: seq<Opt>, args: seq<string>, st: State): (r: State)
    requires st.it < |args| && st.error.None?
    ensures st.it <= r.it <= |args|
    ensures r.it == st.it && r.error.None? ==> r == st
  {
    var a := LongStep(opts, args, st);
    if a.error.Some? || a.it == |args| then a
    else ShortStep(opts, args, a)
  }

  /** `parse_` from state `st` on. */
  function ParseFrom(opts: seq<Opt>, args: seq<string>, st: State): Parsed
    requires st.error.None?
    decreases |args| - st.it
  {
    if st.it >= |args| then Parsed(Completed, st.values)
    else
      var n := Iteration(opts, args, st);
      if n.error.Some? then Parsed(Raised(n.error.value), n.values)
      else if n.it == st.it then Parsed(Stuck(st.it), st.values)
      else ParseFrom(opts, args, n)
  }

  /* Properties of the token loop. */

  /** A value an option may hold: one of its implicit values or a valid one. */
  predicate Admissible(values: map<Opt, seq<string>>) {
    forall o :: o in values ==> forall v :: v in values[o] ==> v in o.implicitValues || o.validValue(v)
  }

  lemma TakeValueAdmissible(args: seq<string>, values: map<Opt, seq<string>>, it: nat, o: Opt,
                            missing: OptionsError, invalid: string -> OptionsError)
    requires it < |args| && Admissible(values)
    ensures Admissible(TakeValue(args, values, it, o, missing, invalid).values)
  {
  }

  lemma {:induction false} ClusterAdmissible(opts: seq<Opt>, args: seq<string>, names: string, i: nat, st: State)
    requires st.it < |args| && st.error.None? && i <= |names| && Admissible(st.values)
    ensures Admissible(ClusterStep(opts, args, names, i, st).values)
    decreases |names| - i
  {
    if i < |names| {
      match LookupShort(opts, names[i])
      case None =>
      case Some(o) =>
        if i == |names| - 1 {
          TakeValueAdmissible(args, st.values, st.it, o, ShortParameterRequiresValue(names[i]),
                              v => InvalidShortParameterValue(names[i], v));
        } else if |o.implicitValues| > 0 {
          ClusterAdmissible(opts, args, names, i + 1, st.(values := st.values[o := o.implicitValues]));
        }
    }
  }

  lemma IterationAdmissible(opts: seq<Opt>, args: seq<string>, st: State)
    requires st.it < |args| && st.error.None? && Admissible(st.values)
    ensures Admissible(Iteration(opts, args, st).values)
  {
    var a := LongStep(opts, args, st);
    if a.error.None? && a.it < |args| {
      var token := args[a.it];
      if StartsWith(token, ShortPrefix) {
        ClusterAdmissible(opts, args, token[|ShortPrefix|..], 0, a);
      }
    }
  }

  /** Every value the loop stores for an option is one of its implicit
      values or passes its validity test, whether the loop completes or
      raises. */
  lemma {:induction false} ParseAdmissible(opts: seq<Opt>, args: seq<string>, st: State)
    requires st.error.None? && Admissible(st.values)
    ensures Admissible(ParseFrom(opts, args, st).values)
    decreases |args| - st.it
  {
    if st.it < |args| {
      IterationAdmissible(opts, args, st);
      var n := Iteration(opts, args, st);
      if n.error.None? && n.it != st.it {
        ParseAdmissible(opts, args, n);
      }
    }
  }

  /** Keys only of options in the table are added. */
  lemma {:induction false} ClusterKeys(opts: seq<Opt>, args: seq<string>, names: string, i: nat, st: State)
    requires st.it < |args| && st.error.None? && i <= |names|
    ensures ClusterStep(opts, args, names, i, st).values.Keys <= st.values.Keys + set o | o in opts
    decreases |names| - i
  {
    if i < |names| {
      match LookupShort(opts, names[i])
      case None =>
      case Some(o) =>
        if i < |names| - 1 && |o.implicitValues| > 0 {
          ClusterKeys(opts, args, names, i + 1, st.(values := st.values[o := o.implicitValues]));
        }
    }
  }

  lemma {:induction false} ParseKeys(opts: seq<Opt>, args: seq<string>, st: State)
    requires st.error.None?
    ensures ParseFrom(opts, args, st).values.Keys <= st.values.Keys + set o | o in opts
    decreases |args| - st.it
  {
    if st.it < |args| {
      var a := LongStep(opts, args, st);
      if a.error.None? && a.it < |args| {
        var token := args[a.it];
        if StartsWith(token, ShortPrefix) {
          ClusterKeys(opts, args, token[|ShortPrefix|..], 0, a);
        }
      }
      var n := Iteration(opts, args, st);
      if n.error.None? && n.it != st.it {
        ParseKeys(opts, args, n);
      }
    }
  }

  /** An iteration changes nothing exactly when the token under the cursor
      has neither prefix (`try_positional_` consumes nothing) or is a lone
      "-" (a cluster of no characters). */
  lemma IterationIdleIff(opts: seq<Opt>, args: seq<string>, st: State)
    requires st.it < |args| && st.error.None?
    ensures Iteration(opts, args, st) == st <==> !StartsWith(args[st.it], ShortPrefix) || args[st.it] == ShortPrefix
  {
    var token := args[st.it];
    if StartsWith(token, LongPrefix) {
      assert StartsWith(token, ShortPrefix);
      assert token != ShortPrefix;
    } else if StartsWith(token, ShortPrefix) {
      assert token == ShortPrefix <==> |token[|ShortPrefix|..]| == 0;
    }
  }

  /** The loop stops with `Stuck(at)` only at such a token, and on such a
      token it stops there at once, with the values it had. */
  lemma {:induction false} ParseStuckAt(opts: seq<Opt>, args: seq<string>, st: State, at: nat)
    requires st.error.None? && ParseFrom(opts, args, st).status == Stuck(at)
    ensures st.it <= at < |args|
    ensures !StartsWith(args[at], ShortPrefix) || args[at] == ShortPrefix
    decreases |args| - st.it
  {
    var n := Iteration(opts, args, st);
    IterationIdleIff(opts, args, st);
    if n.error.None? && n.it != st.it {
      ParseStuckAt(opts, args, n, at);
    }
  }

  lemma StuckOnIdleToken(opts: seq<Opt>, args: seq<string>, st: State)
    requires st.error.None? && st.it < |args|
    requires !StartsWith(args[st.it], ShortPrefix) || args[st.it] == ShortPrefix
    ensures ParseFrom(opts, args, st) == Parsed(Stuck(st.it), st.values)
  {
    IterationIdleIff(opts, args, st);
  }

  /** What the long handler does with a token "--name": an unknown name
      raises, a known one takes its value, raising when the input ends and
      there are no implicit values or when the next argument is invalid. */
  lemma LongStepOutcomes(opts: seq<Opt>, args: seq<string>, st: State, name: string)
    requires st.it < |args| && st.error.None? && args[st.it] == LongPrefix + name
    ensures var r := LongStep(opts, args, st);
      && (LookupLong(opts, name).None? ==> r == st.(error := Some(UnknownLongParameter(name))))
      && (LookupLong(opts, name).Some? ==>
            var o := LookupLong(opts, name).value;
            && (st.it + 1 == |args| && |o.implicitValues| == 0 ==>
                  r == st.(it := st.it + 1, error := Some(LongParameterRequiresValue(name))))
            && (st.it + 1 < |args| && !o.validValue(args[st.it + 1]) ==>
                  r == st.(it := st.it + 1, error := Some(InvalidLongParameterValue(name, args[st.it + 1]))))
            && (r.error.None? ==>
                  r.values == if st.it + 1 == |args| then st.values[o := o.implicitValues]
                              else Appended(st.values, o, args[st.it + 1])))
  {
    assert StartsWith(args[st.it], LongPrefix);
    assert args[st.it][|LongPrefix|..] == name;
  }

  /** The characters of a cluster before the `i`-th all stand for options
      with implicit values, none of them the last character. */
  ghost predicate ClusterPrefixOk(opts: seq<Opt>, names: string, i: nat) {
    && i <= |names|
    && forall m :: 0 <= m < i ==>
         && m < |names| - 1
         && LookupShort(opts, names[m]).Some?
         && |LookupShort(opts, names[m]).value.implicitValues| > 0
  }

  /** The options the first `i` characters of a cluster stand for. */
  ghost function PrefixOpts(opts: seq<Opt>, names: string, i: nat): (r: seq<Opt>)
    requires ClusterPrefixOk(opts, names, i)
    ensures |r| == i && forall m :: 0 <= m < i ==> LookupShort(opts, names[m]) == Some(r[m])
  {
    seq(i, m requires 0 <= m < i => LookupShort(opts, names[m]).value)
  }

  /** The values after the first `i` characters of a cluster stored their
      options' implicit values: each of those options holds its implicit
      values and every other entry is as before. */
  ghost function WithImplicits(opts: seq<Opt>, names: string, i: nat, values: map<Opt, seq<string>>): (r: map<Opt, seq<string>>)
    requires ClusterPrefixOk(opts, names, i)
    ensures forall x :: x in r ==> x in values || x in PrefixOpts(opts, names, i)
    ensures forall x :: x in values ==> x in r
    ensures forall x :: x in PrefixOpts(opts, names, i) ==> x in r && r[x] == x.implicitValues
    ensures forall x :: x in r && x !in PrefixOpts(opts, names, i) ==> r[x] == values[x]
    decreases i
  {
    if i == 0 then values
    else
      var o := LookupShort(opts, names[i - 1]).value;
      assert PrefixOpts(opts, names, i) == PrefixOpts(opts, names, i - 1) + [o];
      WithImplicits(opts, names, i - 1, values)[o := o.implicitValues]
  }

  /** The loop of `try_short_name_` reaches the `i`-th character with every
      earlier option's implicit values stored. */
  lemma {:induction false} ClusterReaches(opts: seq<Opt>, args: seq<string>, names: string, i: nat, st: State)
    requires st.it < |args| && st.error.None? && ClusterPrefixOk(opts, names, i)
    ensures ClusterStep(opts, args, names, 0, st)
         == ClusterStep(opts, args, names, i, st.(values := WithImplicits(opts, names, i, st.values)))
    decreases i
  {
    if i > 0 {
      ClusterReaches(opts, args, names, i - 1, st);
    }
  }

  /** A token "-names" whose `i`-th character is unknown raises, after the
      earlier characters stored their implicit values. */
  lemma ShortUnknownRaises(opts: seq<Opt>, args: seq<string>, st: State, names: string, i: nat)
    requires st.it < |args| && st.error.None? && args[st.it] == ShortPrefix + names
    requires ClusterPrefixOk(opts, names, i) && i < |names| && LookupShort(opts, names[i]).None?
    ensures ShortStep(opts, args, st)
         == State(WithImplicits(opts, names, i, st.values), st.it, Some(UnknownShortParameter(names[i])))
  {
    assert StartsWith(args[st.it], ShortPrefix) && args[st.it][|ShortPrefix|..] == names;
    ClusterReaches(opts, args, names, i, st);
  }

  /** A character before the last must stand for an option with implicit
      values; one without raises. */
  lemma ShortInnerRequiresImplicit(opts: seq<Opt>, args: seq<string>, st: State, names: string, i: nat)
    requires st.it < |args| && st.error.None? && args[st.it] == ShortPrefix + names
    requires ClusterPrefixOk(opts, names, i) && i < |names| - 1
    requires LookupShort(opts, names[i]).Some? && |LookupShort(opts, names[i]).value.implicitValues| == 0
    ensures ShortStep(opts, args, st)
         == State(WithImplicits(opts, names, i, st.values), st.it, Some(ShortParameterRequiresValue(names[i])))
  {
    assert StartsWith(args[st.it], ShortPrefix) && args[st.it][|ShortPrefix|..] == names;
    ClusterReaches(opts, args, names, i, st);
  }

  /** The last character of a cluster takes a value like a long option:
      raising when the input ends and there are no implicit values or when
      the next argument is invalid. */
  lemma ShortLastOutcomes(opts: seq<Opt>, args: seq<string>, st: State, names: string, o: Opt)
    requires st.it < |args| && st.error.None? && args[st.it] == ShortPrefix + names
    requires |names| > 0 && ClusterPrefixOk(opts, names, |names| - 1)
    requires LookupShort(opts, names[|names| - 1]) == Some(o)
    ensures var c := names[|names| - 1];
      var before := WithImplicits(opts, names, |names| - 1, st.values);
      var r := ShortStep(opts, args, st);
      && (st.it + 1 == |args| && |o.implicitValues| == 0 ==>
            r == State(before, st.it + 1, Some(ShortParameterRequiresValue(c))))
      && (st.it + 1 < |args| && !o.validValue(args[st.it + 1]) ==>
            r == State(before, st.it + 1, Some(InvalidShortParameterValue(c, args[st.it + 1]))))
      && (r.error.None? ==>
            r.values == if st.it + 1 == |args| then before[o := o.implicitValues]
                        else Appended(before, o, args[st.it + 1]))
  {
    assert StartsWith(args[st.it], ShortPrefix) && args[st.it][|ShortPrefix|..] == names;
    ClusterReaches(opts, args, names, |names| - 1, st);
    var before := WithImplicits(opts, names, |names| - 1, st.values);
    ClusterLast(opts, args, names, st.(values := before), o);
  }

  /** The last character of a cluster, reached in state `st`. */
  lemma ClusterLast(opts: seq<Opt>, args: seq<string>, names: string, st: State, o: Opt)
    requires st.it < |args| && st.error.None? && |names| > 0
    requires LookupShort(opts, names[|names| - 1]) == Some(o)
    ensures var c := names[|names| - 1];
      var r := ClusterStep(opts, args, names, |names| - 1, st);
      && (st.it + 1 == |args| && |o.implicitValues| == 0 ==>
            r == State(st.values, st.it + 1, Some(ShortParameterRequiresValue(c))))
      && (st.it + 1 < |args| && !o.validValue(args[st.it + 1]) ==>
            r == State(st.values, st.it + 1, Some(InvalidShortParameterValue(c, args[st.it + 1]))))
      && (r.error.None? ==>
            r.values == if st.it + 1 == |args| then st.values[o := o.implicitValues]
                        else Appended(st.values, o, args[st.it + 1]))
  {
  }

  /** A long option followed by a valid value is stored and consumes two
      arguments. */
  lemma LongOptionTakesValue(opts: seq<Opt>, args: seq<string>, st: State, name: string, o: Opt)
    requires st.error.None? && st.it + 1 < |args| && args[st.it] == LongPrefix + name
    requires LookupLong(opts, name) == Some(o) && o.validValue(args[st.it + 1])
    ensures LongStep(opts, args, st) == State(Appended(st.values, o, args[st.it + 1]), st.it + 2, None)
  {
    assert StartsWith(args[st.it], LongPrefix);
    assert args[st.it][|LongPrefix|..] == name;
  }

  /** As written, `parse_` fails on two consecutive long options with
      values: after the long handler takes "--a v", the short handler sees
      "--b" as a cluster whose first character is '-'. */
  lemma ConsecutiveLongOptionsRejected(opts: seq<Opt>, a: string, va: string, b: string, vb: string,
                                       oa: Opt, values: map<Opt, seq<string>>)
    requires LookupLong(opts, a) == Some(oa) && oa.validValue(va)
    requires LookupShort(opts, '-') == None
    ensures ParseFrom(opts, ["--" + a, va, "--" + b, vb], State(values, 0, None)).status == Raised(UnknownShortParameter('-'))
  {
    var args := ["--" + a, va, "--" + b, vb];
    var st := State(values, 0, None);
    LongOptionTakesValue(opts, args, st, a, oa);
    var n := LongStep(opts, args, st);
    assert n.it == 2;
    assert StartsWith(args[2], ShortPrefix);
    assert args[2][|ShortPrefix|..][0] == '-';
  }

  /* The corrected loop: a token with the long prefix is left to the long
     handler alone. */

  /** `try_short_name_` as evidently intended: it skips long options. */
  function ShortStepIntended(opts: seq<Opt>, args: seq<string>, st: State): (r: State)
    requires st.it < |args| && st.error.None?
    ensures st.it <= r.it <= |args|
    ensures r.it == st.it && r.error.None? ==> r == st
    ensures StartsWith(args[st.it], LongPrefix) ==> r == st
  {
    if StartsWith(args[st.it], LongPrefix) then st else ShortStep(opts, args, st)
  }

  function IterationIntended(opts: seq<Opt>, args: seq<string>, st: State): (r: State)
    requires st.it < |args| && st.error.None?
    ensures st.it <= r.it <= |args|
    ensures r.it == st.it && r.error.None? ==> r == st
  {
    var a := LongStep(opts, args, st);
    if a.error.Some? || a.it == |args| then a
    else ShortStepIntended(opts, args, a)
  }

  function ParseFromIntended(opts: seq<Opt>, args: seq<string>, st: State): Parsed
    requires st.error.None?
    decreases |args| - st.it
  {
    if st.it >= |args| then Parsed(Completed, st.values)
    else
      var n := IterationIntended(opts, args, st);
      if n.error.Some? then Parsed(Raised(n.error.value), n.values)
      else if n.it == st.it then Parsed(Stuck(st.it), st.values)
      else ParseFromIntended(opts, args, n)
  }

  /** A run of long options, each followed by a valid value. */
  ghost predicate LongPairs(opts: seq<Opt>, args: seq<string>, from: nat) {
    && from <= |args| && (|args| - from) % 2 == 0
    && forall k :: from <= k < |args| && (k - from) % 2 == 0 ==> LongPairAt(opts, args, k)
  }

  /** The argument at `k` is a known long option and the next one a valid
      value for it. */
  ghost predicate LongPairAt(opts: seq<Opt>, args: seq<string>, k: nat) {
    && k + 1 < |args| && StartsWith(args[k], LongPrefix)
    && var found := LookupLong(opts, args[k][|LongPrefix|..]);
       found.Some? && found.value.validValue(args[k + 1])
  }

  /** The corrected loop accepts any run of long options with valid values,
      storing each value under its option. */
  lemma {:induction false} IntendedAcceptsLongPairs(opts: seq<Opt>, args: seq<string>, st: State)
    requires st.error.None? && LongPairs(opts, args, st.it)
    ensures ParseFromIntended(opts, args, st).status == Completed
    decreases |args| - st.it
  {
    if st.it < |args| {
      var k := st.it;
      assert LongPairAt(opts, args, k);
      var o := LookupLong(opts, args[k][|LongPrefix|..]).value;
      var a := LongStep(opts, args, st);
      assert a == State(Appended(st.values, o, args[k + 1]), k + 2, None);
      if a.it < |args| {
        assert (a.it - k) % 2 == 0;
        assert LongPairAt(opts, args, a.it);
        assert StartsWith(args[a.it], LongPrefix);
      }
      var n := IterationIntended(opts, args, st);
      assert n == a;
      forall m | a.it <= m < |args| && (m - a.it) % 2 == 0
        ensures LongPairAt(opts, args, m)
      {
        assert (m - k) % 2 == 0;
      }
      IntendedAcceptsLongPairs(opts, args, n);
    }
  }

  /** On the input that the loop as written rejects, the corrected loop
      completes. */
  lemma ConsecutiveLongOptionsAccepted(opts: seq<Opt>, a: string, va: string, b: string, vb: string,
                                       oa: Opt, ob: Opt, values: map<Opt, seq<string>>)
    requires LookupLong(opts, a) == Some(oa) && oa.validValue(va)
    requires LookupLong(opts, b) == Some(ob) && ob.validValue(vb)
    ensures ParseFromIntended(opts, ["--" + a, va, "--" + b, vb], State(values, 0, None)).status == Completed
  {
    var args := ["--" + a, va, "--" + b, vb];
    assert args[0][|LongPrefix|..] == a && StartsWith(args[0], LongPrefix);
    assert args[2][|LongPrefix|..] == b && StartsWith(args[2], LongPrefix);
    assert LongPairAt(opts, args, 0) && LongPairAt(opts, args, 2);
    forall k | 0 <= k < |args| && k % 2 == 0
      ensures LongPairAt(opts, args, k)
    {
    }
    IntendedAcceptsLongPairs(opts, args, State(values, 0, None));
  }

  /* ---------------------------------------------------------------------
     The table
     --------------------------------------------------------------------- */

  class OptionTable {
    var options: seq<Opt>
    var args: seq<string>
    var values: map<Opt, seq<string>>

    constructor ()
      ensures options == [] && args == [] && values == map[]
    {
      options := [];
      args := [];
      values := map[];
    }

    /** `add`: appends, even an option already present. */
    method Add(o: Opt)
      modifies this
      ensures options == old(options) + [o]
      ensures args == old(args) && values == old(values)
    {
      options := options + [o];
    }

    /** `erase`: removes every occurrence of `o`, keeping the order of the
        rest (the erase-remove idiom). */
    method Erase(o: Opt)
      modifies this
      ensures options == Without(old(options), o)
      ensures args == old(args) && values == old(values)
    {
      var kept: seq<Opt> := [];
      var k := 0;
      while k < |options|
        invariant k <= |options|
        invariant Without(options, o) == kept + Without(options[k..], o)
      {
        assert options[k..] == [options[k]] + options[k + 1..];
        k := k + 1;
        if options[k - 1] != o {
          kept := kept + [options[k - 1]];
        }
      }
      options := kept;
    }

    /** `check`: every ordered pair of positions, long names first. */
    method Check() returns (r: Outcome<OptionsError>)
      ensures r == match ConflictFrom(options, 0, 0) case None => Pass case Some(err) => Fail(err)
    {
      var i := 0;
      while i < |options|
        invariant i <= |options|
        invariant ConflictFrom(options, i, 0) == ConflictFrom(options, 0, 0)
      {
        var j := 0;
        while j < |options|
          invariant j <= |options|
          invariant ConflictFrom(options, i, j) == ConflictFrom(options, 0, 0)
        {
          if i < j {
            var conflict := CheckPair(options[i], options[j]);
            if conflict.Some? {
              return Fail(conflict.value);
            }
          }
          j := j + 1;
        }
        i := i + 1;
      }
      return Pass;
    }

    /** `find(long_name)`: the first option answering to the name, or null. */
    method FindLong(name: string) returns (r: Option<Opt>)
      ensures r == LookupLong(options, name)
    {
      var k := 0;
      while k < |options|
        invariant k <= |options|
        invariant forall m :: 0 <= m < k ==> !AnswersLong(options[m], name)
      {
        var o := options[k];
        if o.longName == name {
          FirstAnswering(options, k, (x: Opt) => AnswersLong(x, name));
          return Some(o);
        }
        if name in o.longSynonyms {
          FirstAnswering(options, k, (x: Opt) => AnswersLong(x, name));
          return Some(o);
        }
        k := k + 1;
      }
      return None;
    }

    /** `find(short_name)`. */
    method FindShort(c: char) returns (r: Option<Opt>)
      ensures r == LookupShort(options, c)
    {
      var k := 0;
      while k < |options|
        invariant k <= |options|
        invariant forall m :: 0 <= m < k ==> !AnswersShort(options[m], c)
      {
        var o := options[k];
        if o.shortName == c {
          FirstAnswering(options, k, (x: Opt) => AnswersShort(x, c));
          return Some(o);
        }
        if c in o.shortSynonyms {
          FirstAnswering(options, k, (x: Opt) => AnswersShort(x, c));
          return Some(o);
        }
        k := k + 1;
      }
      return None;
    }

    /** `operator<<(shared_ptr)`: appends the option if this very object is
        not in the list yet, then checks; the option stays in the list when
        the check fails. */
    method Push(o: Opt) returns (r: Outcome<OptionsError>)
      modifies this
      ensures options == Adjoin(old(options), o)
      ensures args == old(args) && values == old(values)
      ensures r.Pass? <==> NamesDistinct(options)
      ensures r.Fail? ==> Some(r.error) == ConflictFrom(options, 0, 0)
    {
      var k := 0;
      while k < |options| && options[k] != o
        invariant k <= |options|
        invariant forall m :: 0 <= m < k ==> options[m] != o
      {
        k := k + 1;
      }
      if k == |options| {
        options := options + [o];
      }
      r := Check();
      CheckSpec(options);
    }

    /** `operator<<(const option&)`: a fresh copy is pushed, so it is always
        appended; a copy of an option already in the table always conflicts
        with it. */
    method PushCopy(o: Opt) returns (r: Outcome<OptionsError>, copy: Opt)
      modifies this
      ensures fresh(copy) && SameContents(copy, o)
      ensures options == old(options) + [copy]
      ensures args == old(args) && values == old(values)
      ensures r.Pass? <==> NamesDistinct(options)
      ensures (exists k :: 0 <= k < old(|options|) && SameContents(old(options)[k], o)) ==> r.Fail?
    {
      copy := new Opt.Copy(o);
      r := Push(copy);
      if exists k :: 0 <= k < old(|options|) && SameContents(old(options)[k], o) {
        var k :| 0 <= k < old(|options|) && SameContents(old(options)[k], o);
        assert options[k] == old(options)[k] && options[|options| - 1] == copy;
        DuplicateConflicts(options, k, |options| - 1);
      }
    }

    /** `try_long_name_`. */
    method TryLong(it: nat) returns (next: nat, err: Option<OptionsError>)
      requires it < |args|
      modifies this
      ensures options == old(options) && args == old(args)
      ensures State(values, next, err) == LongStep(options, args, State(old(values), it, None))
    {
      next := it;
      err := None;
      var token := args[it];
      if |LongPrefix| <= |token| && token[..|LongPrefix|] == LongPrefix {
        var name := token[|LongPrefix|..];
        var found := FindLong(name);
        if found.Some? {
          var o := found.value;
          next := next + 1;
          if next == |args| {
            if |o.implicitValues| > 0 {
              values := values[o := o.implicitValues];
            } else {
              err := Some(LongParameterRequiresValue(name));
            }
          } else {
            if o.validValue(args[next]) {
              values := Appended(values, o, args[next]);
              next := next + 1;
            } else {
              err := Some(InvalidLongParameterValue(name, args[next]));
            }
          }
        } else {
          err := Some(UnknownLongParameter(name));
        }
      }
    }

    /** `try_short_name_`. */
    method TryShort(it: nat) returns (next: nat, err: Option<OptionsError>)
      requires it < |args|
      modifies this
      ensures options == old(options) && args == old(args)
      ensures State(values, next, err) == ShortStep(options, args, State(old(values), it, None))
    {
      next := it;
      err := None;
      var token := args[it];
      if |ShortPrefix| <= |token| && token[..|ShortPrefix|] == ShortPrefix {
        var names := token[|ShortPrefix|..];
        var i := 0;
        while i < |names|
          invariant i <= |names| && next == it && err.None?
          invariant options == old(options) && args == old(args)
          invariant ClusterStep(options, args, names, i, State(values, it, None)) ==
                    ShortStep(options, args, State(old(values), it, None))
        {
          var c := names[i];
          var found := FindShort(c);
          if found.None? {
            err := Some(UnknownShortParameter(c));
            return;
          }
          var o := found.value;
          if i == |names| - 1 {
            next := next + 1;
            if next == |args| {
              if |o.implicitValues| > 0 {
                values := values[o := o.implicitValues];
              } else {
                err := Some(ShortParameterRequiresValue(c));
              }
            } else {
              if o.validValue(args[next]) {
                values := Appended(values, o, args[next]);
                next := next + 1;
              } else {
                err := Some(InvalidShortParameterValue(c, args[next]));
              }
            }
            return;
          }
          if |o.implicitValues| > 0 {
            values := values[o := o.implicitValues];
          } else {
            err := Some(ShortParameterRequiresValue(c));
            return;
          }
          i := i + 1;
        }
      }
    }

    /** `try_positional_`: consumes nothing. */
    method TryPositional(it: nat) returns (next: nat)
      ensures next == it
    {
      next := it;
    }

    /** `parse_`: the loop over the arguments.  Where the source would loop
        forever, the model stops with `Stuck`. */
    method Parse() returns (status: Status)
      modifies this
      ensures options == old(options) && args == old(args)
      ensures Parsed(status, values) == ParseFrom(options, args, State(old(values), 0, None))
    {
      var it := 0;
      while it < |args|
        invariant it <= |args|
        invariant options == old(options) && args == old(args)
        invariant ParseFrom(options, args, State(values, it, None)) == ParseFrom(options, args, State(old(values), 0, None))
        decreases |args| - it
      {
        ghost var st := State(values, it, None);
        var next, err := TryLong(it);
        if err.Some? {
          return Raised(err.value);
        }
        if next == |args| {
          it := next;
          break;
        }
        var next2, err2 := TryShort(next);
        if err2.Some? {
          return Raised(err2.value);
        }
        if next2 == |args| {
          it := next2;
          break;
        }
        var next3 := TryPositional(next2);
        if next3 == it {
          return Stuck(it);
        }
        it := next3;
      }
      return Completed;
    }
  }

  lemma {:induction false} FirstAnswering(opts: seq<Opt>, k: nat, p: Opt -> bool)
    requires k < |opts| && p(opts[k]) && forall m :: 0 <= m < k ==> !p(opts[m])
    ensures FirstIndex(opts, p) == Some(k)
  {
    assert p(opts[k]);
  }
}
