/** The client's column layout ("metadata"): each fixed column lists the news
    sources shown in it. A stored layout is merged with the built-in one when it
    is loaded, and the atom holding it only accepts writes that are newer than
    what it holds. The catalogue of sources and the built-in columns are
    parameters: a source id maps to its entry, which may redirect to another id. */
module Metadata {
  import opened Wrappers

  datatype SourceInfo = SourceInfo(redirect: Option<string>)

  type Sources = map<string, SourceInfo>
  type Columns = map<string, seq<string>>

  datatype PrimitiveMetadata = PrimitiveMetadata(data: Columns, action: string, updatedTime: int)

  const FocusColumn := "focus"
  const InitAction := "init"

  /** The id a known source is shown under: its redirect target when it has one. */
  function Redirect(sources: Sources, k: string): (r: string)
    requires k in sources
    ensures sources[k].redirect.None? ==> r == k
    ensures sources[k].redirect.Some? ==> r == sources[k].redirect.value
  {
    sources[k].redirect.GetOr(k)
  }

  /** The ids of `s` that are known sources and, when `allowed` is given, also in
      it, each replaced by its redirect target, in their order in `s`. */
  function KeepKnown(s: seq<string>, sources: Sources, allowed: Option<seq<string>>): (r: seq<string>)
    ensures |r| <= |s|
  {
    if s == [] then []
    else
      var rest := KeepKnown(s[1..], sources, allowed);
      if s[0] in sources && (allowed.None? || s[0] in allowed.value)
      then [Redirect(sources, s[0])] + rest
      else rest
  }

  /** The ids of `init` that do not occur in `present`, in their order in `init`. */
  function Absent(init: seq<string>, present: seq<string>): (r: seq<string>)
    ensures forall k :: k in r <==> k in init && k !in present
  {
    if init == [] then []
    else if init[0] in present then Absent(init[1..], present)
    else [init[0]] + Absent(init[1..], present)
  }

  /** The merged list of one built-in column `id` whose stored list is `s`. */
  function MergeColumn(id: string, s: seq<string>, init: seq<string>, sources: Sources): (r: seq<string>)
  {
    if id == FocusColumn then KeepKnown(s, sources, None)
    else
      var oldS := KeepKnown(s, sources, Some(init));
      oldS + Absent(init, oldS)
  }

  /** Merges a stored layout with the built-in columns `initial`: a stored column
      that is not built in is dropped, a built-in column that was not stored gets
      its built-in list, and each stored built-in column is merged. */
  function PreprocessMetadata(target: PrimitiveMetadata, initial: Columns, sources: Sources): (r: PrimitiveMetadata)
    ensures r.data.Keys == initial.Keys
    ensures r.action == target.action && r.updatedTime == target.updatedTime
    ensures forall id :: id in initial && id !in target.data ==> r.data[id] == initial[id]
    ensures forall id :: id in initial && id in target.data ==>
              r.data[id] == MergeColumn(id, target.data[id], initial[id], sources)
  {
    var data := map id | id in initial ::
      if id in target.data then MergeColumn(id, target.data[id], initial[id], sources) else initial[id];
    PrimitiveMetadata(data, target.action, target.updatedTime)
  }

  lemma {:induction false} KeepKnownAppend(a: seq<string>, b: seq<string>, sources: Sources, allowed: Option<seq<string>>)
    ensures KeepKnown(a + b, sources, allowed) == KeepKnown(a, sources, allowed) + KeepKnown(b, sources, allowed)
    decreases |a|
  {
    if a == [] {
      assert a + b == b;
    } else {
      assert (a + b)[1..] == a[1..] + b;
      KeepKnownAppend(a[1..], b, sources, allowed);
    }
  }

  /** An id is in the kept list exactly when some kept id of `s` leads to it. */
  lemma {:induction false} KeepKnownMembers(s: seq<string>, sources: Sources, allowed: Option<seq<string>>, x: string)
    ensures x in KeepKnown(s, sources, allowed) <==>
      exists i :: 0 <= i < |s| && s[i] in sources && (allowed.None? || s[i] in allowed.value)
                  && Redirect(sources, s[i]) == x
  {
    if s != [] {
      KeepKnownMembers(s[1..], sources, allowed, x);
      if x in KeepKnown(s[1..], sources, allowed) {
        var i :| 0 <= i < |s[1..]| && s[1..][i] in sources && (allowed.None? || s[1..][i] in allowed.value)
                 && Redirect(sources, s[1..][i]) == x;
        assert s[i + 1] == s[1..][i];
      }
      if exists i :: 0 <= i < |s| && s[i] in sources && (allowed.None? || s[i] in allowed.value)
                     && Redirect(sources, s[i]) == x {
        var i :| 0 <= i < |s| && s[i] in sources && (allowed.None? || s[i] in allowed.value)
                 && Redirect(sources, s[i]) == x;
        if i > 0 {
          assert s[1..][i - 1] == s[i];
        }
      }
    }
  }

  /** The focus column keeps the known ids of the stored list, redirected, in the
      stored order: merging a concatenation is the concatenation of the merges. */
  lemma FocusFollowsStoredOrder(a: seq<string>, b: seq<string>, init: seq<string>, sources: Sources)
    ensures MergeColumn(FocusColumn, a + b, init, sources)
         == MergeColumn(FocusColumn, a, init, sources) + MergeColumn(FocusColumn, b, init, sources)
  {
    KeepKnownAppend(a, b, sources, None);
  }

  /** An unknown id is dropped from the focus column and a known one is kept
      under its redirect target. */
  lemma FocusMembers(s: seq<string>, init: seq<string>, sources: Sources, x: string)
    ensures x in MergeColumn(FocusColumn, s, init, sources) <==>
      exists i :: 0 <= i < |s| && s[i] in sources && Redirect(sources, s[i]) == x
  {
    KeepKnownMembers(s, sources, None, x);
  }

  /** Every built-in id of a column other than focus is in its merged list. */
  lemma {:induction false} EveryInitialIdPresent(id: string, s: seq<string>, init: seq<string>, sources: Sources, k: string)
    requires id != FocusColumn && k in init
    ensures k in MergeColumn(id, s, init, sources)
  {
    var oldS := KeepKnown(s, sources, Some(init));
    if k !in oldS {
      assert k in Absent(init, oldS);
    }
  }

  /** An id in a merged column other than focus is a built-in id, or the redirect
      target of a known built-in id the stored list holds. */
  lemma MergedIdsOrigin(id: string, s: seq<string>, init: seq<string>, sources: Sources, x: string)
    requires id != FocusColumn && x in MergeColumn(id, s, init, sources)
    ensures x in init || exists i :: 0 <= i < |s| && s[i] in sources && s[i] in init && Redirect(sources, s[i]) == x
  {
    KeepKnownMembers(s, sources, Some(init), x);
  }

  /** The layout the catalogue already agrees with: every built-in id is a
      source without a redirect, and every redirect leads to such a source. */
  predicate Settled(initial: Columns, sources: Sources)
  {
    && (forall id, k :: id in initial && k in initial[id] ==> k in sources && sources[k].redirect.None?)
    && (forall k :: k in sources && sources[k].redirect.Some? ==>
          sources[k].redirect.value in sources && sources[sources[k].redirect.value].redirect.None?)
  }

  lemma {:induction false} KeepKnownSettled(s: seq<string>, sources: Sources, allowed: Option<seq<string>>)
    requires forall k :: k in sources && sources[k].redirect.Some? ==>
               sources[k].redirect.value in sources && sources[sources[k].redirect.value].redirect.None?
    ensures forall x :: x in KeepKnown(s, sources, allowed) ==> x in sources && sources[x].redirect.None?
  {
    if s != [] {
      KeepKnownSettled(s[1..], sources, allowed);
    }
  }

  /** Once every id of `s` is a source without a redirect and is allowed, nothing is
      dropped or renamed. */
  lemma {:induction false} KeepKnownFixed(s: seq<string>, sources: Sources, allowed: Option<seq<string>>)
    requires forall x :: x in s ==> x in sources && sources[x].redirect.None?
    requires allowed.Some? ==> forall x :: x in s ==> x in allowed.value
    ensures KeepKnown(s, sources, allowed) == s
  {
    if s != [] {
      KeepKnownFixed(s[1..], sources, allowed);
    }
  }

  lemma {:induction false} MergeColumnIdempotent(id: string, s: seq<string>, init: seq<string>, sources: Sources)
    requires forall k :: k in init ==> k in sources && sources[k].redirect.None?
    requires forall k :: k in sources && sources[k].redirect.Some? ==>
               sources[k].redirect.value in sources && sources[sources[k].redirect.value].redirect.None?
    ensures MergeColumn(id, MergeColumn(id, s, init, sources), init, sources) == MergeColumn(id, s, init, sources)
  {
    var m := MergeColumn(id, s, init, sources);
    if id == FocusColumn {
      KeepKnownSettled(s, sources, None);
      KeepKnownFixed(m, sources, None);
    } else {
      var oldS := KeepKnown(s, sources, Some(init));
      KeepKnownSettled(s, sources, Some(init));
      forall x | x in m
        ensures x in sources && sources[x].redirect.None? && x in init
      {
        MergedIdsOrigin(id, s, init, sources, x);
      }
      KeepKnownFixed(m, sources, Some(init));
      forall k | k in init
        ensures k in m
      {
        EveryInitialIdPresent(id, s, init, sources, k);
      }
      AbsentNone(init, m);
      assert m + [] == m;
    }
  }

  lemma {:induction false} AbsentNone(init: seq<string>, present: seq<string>)
    requires forall k :: k in init ==> k in present
    ensures Absent(init, present) == []
  {
    if init != [] {
      AbsentNone(init[1..], present);
    }
  }

  /** A built-in column of settled sources merges with itself to itself. */
  lemma MergeOfInitial(id: string, init: seq<string>, sources: Sources)
    requires forall k :: k in init ==> k in sources && sources[k].redirect.None?
    ensures MergeColumn(id, init, init, sources) == init
  {
    KeepKnownFixed(init, sources, None);
    KeepKnownFixed(init, sources, Some(init));
    AbsentNone(init, init);
    assert init + [] == init;
  }

  /** Loading a layout that was itself produced by the merge changes nothing,
      provided the catalogue already agrees with the built-in columns. */
  lemma PreprocessIdempotent(target: PrimitiveMetadata, initial: Columns, sources: Sources)
    requires Settled(initial, sources)
    ensures PreprocessMetadata(PreprocessMetadata(target, initial, sources), initial, sources)
         == PreprocessMetadata(target, initial, sources)
  {
    var once := PreprocessMetadata(target, initial, sources);
    var twice := PreprocessMetadata(once, initial, sources);
    forall id | id in initial
      ensures twice.data[id] == once.data[id]
    {
      ColumnIdempotent(target, initial, sources, id);
    }
    assert twice.data == once.data;
  }

  lemma ColumnIdempotent(target: PrimitiveMetadata, initial: Columns, sources: Sources, id: string)
    requires id in initial && Settled(initial, sources)
    ensures var once := PreprocessMetadata(target, initial, sources);
            PreprocessMetadata(once, initial, sources).data[id] == once.data[id]
  {
    var init := initial[id];
    assert forall k :: k in init ==> k in sources && sources[k].redirect.None?;
    if id in target.data {
      MergeColumnIdempotent(id, target.data[id], init, sources);
    } else {
      MergeOfInitial(id, init, sources);
    }
  }

  /** The layout the client starts from: the merged stored layout, marked as an
      initial load, or the built-in one when nothing usable is stored. `parse`
      stands for decoding and shape-checking the stored text; None is a failure. */
  function GetInitialValue(item: Option<string>, parse: string -> Option<PrimitiveMetadata>,
                           initial: Columns, sources: Sources): (r: PrimitiveMetadata)
    ensures r.action == InitAction && r.data.Keys == initial.Keys
    ensures item.None? || item.value == "" || parse(item.value).None? ==>
              r == PrimitiveMetadata(initial, InitAction, 0)
    ensures item.Some? && item.value != "" && parse(item.value).Some? ==>
              r == PreprocessMetadata(parse(item.value).value.(action := InitAction), initial, sources)
    ensures item.Some? && item.value != "" && parse(item.value).Some? ==>
              r.updatedTime == parse(item.value).value.updatedTime
  {
    if item.Some? && item.value != "" && parse(item.value).Some? then
      PreprocessMetadata(parse(item.value).value.(action := InitAction), initial, sources)
    else
      PrimitiveMetadata(initial, InitAction, 0)
  }

  /** A stored layout that is itself the result of a merge loads back as it
      was stored, only marked as an initial load, when the catalogue agrees
      with the built-in columns. */
  lemma ReloadMerged(item: string, parse: string -> Option<PrimitiveMetadata>, w: PrimitiveMetadata,
                     initial: Columns, sources: Sources)
    requires Settled(initial, sources) && item != ""
    requires parse(item) == Some(PreprocessMetadata(w, initial, sources))
    ensures GetInitialValue(Some(item), parse, initial, sources)
         == PreprocessMetadata(w, initial, sources).(action := InitAction)
  {
    var once := PreprocessMetadata(w, initial, sources);
    PreprocessIdempotent(w, initial, sources);
    assert PreprocessMetadata(once.(action := InitAction), initial, sources).data
        == PreprocessMetadata(once, initial, sources).data;
  }

  /** A write to the atom: a new value, or a function of the current one. */
  datatype Update = Replace(next: PrimitiveMetadata) | Apply(f: PrimitiveMetadata -> PrimitiveMetadata)

  function NextValue(current: PrimitiveMetadata, update: Update): PrimitiveMetadata
  {
    match update
    case Replace(next) => next
    case Apply(f) => f(current)
  }

  /** The value after a write: the proposed value when it is strictly newer,
      otherwise the current one. */
  function Written(current: PrimitiveMetadata, update: Update): (r: PrimitiveMetadata)
    ensures r.updatedTime >= current.updatedTime
    ensures r == current || r.updatedTime > current.updatedTime
    ensures NextValue(current, update).updatedTime > current.updatedTime <==> r != current
    ensures NextValue(current, update).updatedTime > current.updatedTime ==> r == NextValue(current, update)
  {
    var next := NextValue(current, update);
    if next.updatedTime > current.updatedTime then next else current
  }

  /** The value after a series of writes. */
  function WrittenAll(current: PrimitiveMetadata, updates: seq<Update>): PrimitiveMetadata
    decreases |updates|
  {
    if updates == [] then current
    else WrittenAll(Written(current, updates[0]), updates[1..])
  }

  /** After any series of writes the time stamp has not gone back, and a value
      with a time stamp no newer than the start is the start value itself. */
  lemma {:induction false} WrittenAllMonotone(current: PrimitiveMetadata, updates: seq<Update>)
    ensures WrittenAll(current, updates).updatedTime >= current.updatedTime
    ensures WrittenAll(current, updates).updatedTime == current.updatedTime ==>
              WrittenAll(current, updates) == current
    decreases |updates|
  {
    if updates != [] {
      WrittenAllMonotone(Written(current, updates[0]), updates[1..]);
    }
  }

  /** Writing the same value twice is the same as writing it once. */
  lemma ReplaceTwice(current: PrimitiveMetadata, v: PrimitiveMetadata)
    ensures Written(Written(current, Replace(v)), Replace(v)) == Written(current, Replace(v))
  {
  }

  /** The atom: the value it holds and the text kept for it in local storage. */
  class MetadataAtom {
    var value: PrimitiveMetadata
    var item: Option<string>

    /** Creates the atom from what local storage holds. */
    constructor(stored: Option<string>, parse: string -> Option<PrimitiveMetadata>,
                initial: Columns, sources: Sources)
      ensures value == GetInitialValue(stored, parse, initial, sources)
      ensures item == stored
    {
      value := GetInitialValue(stored, parse, initial, sources);
      item := stored;
    }

    /** Applies a write; the stored text is replaced with `encode` of the new
        value exactly when the value changes. */
    method Set(update: Update, encode: PrimitiveMetadata -> string)
      modifies this
      ensures value == Written(old(value), update)
      ensures NextValue(old(value), update).updatedTime > old(value).updatedTime ==>
                item == Some(encode(value))
      ensures NextValue(old(value), update).updatedTime <= old(value).updatedTime ==>
                item == old(item)
    {
      var next := NextValue(value, update);
      if next.updatedTime > value.updatedTime {
        value := next;
        item := Some(encode(next));
      }
    }
  }
}
