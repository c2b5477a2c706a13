/** `src/mod/module.c` and the child parsers of `src/cli.c`. */
module Registry {
  import opened Text
  import opened Events
  import opened Dispatching

  /** A parsed configuration file, as far as iniparser answers questions about it. */
  datatype Ini = Ini(getString: string -> Option<CString>, getLong: string -> int, getBoolean: string -> Option<bool>)

  /** A module. Callbacks are functions to their result; NULL callbacks are None. */
  class UnlockedModule {
    const argp: Option<nat>
    var enabled: bool
    /** The setting for `enabled` that the callback finds in the file, if any, and its result. */
    const parseConfig: Option<Ini -> (Option<bool>, Err)>
    const init: Option<bool -> Err>
    const success: Option<CString -> Err>
    const failure: Option<Err -> Err>
    const cleanup: Option<Err>

    constructor (argp: Option<nat>, parseConfig: Option<Ini -> (Option<bool>, Err)>, init: Option<bool -> Err>,
                 success: Option<CString -> Err>, failure: Option<Err -> Err>, cleanup: Option<Err>)
      ensures this.argp == argp && !enabled && this.parseConfig == parseConfig && this.init == init
      ensures this.success == success && this.failure == failure && this.cleanup == cleanup
    {
      this.argp, this.parseConfig, this.init := argp, parseConfig, init;
      this.success, this.failure, this.cleanup := success, failure, cleanup;
      enabled := false;
    }

    function SuccessSlot(key: CString): Slot
      reads this
    {
      if enabled && success.Some? then Some(success.value(key)) else None
    }

    function FailureSlot(err: Err): Slot
      reads this
    {
      if enabled && failure.Some? then Some(failure.value(err)) else None
    }

    function InitSlot(): Slot
      reads this
    {
      if init.Some? then Some(init.value(enabled)) else None
    }

    function ConfigSlot(ini: Ini): Slot {
      if parseConfig.Some? then Some(parseConfig.value(ini).1) else None
    }

    /** `enabled` after the module has read the file. */
    function EnabledBy(ini: Ini, before: bool): bool {
      if parseConfig.Some? && parseConfig.value(ini).0.Some? then parseConfig.value(ini).0.value else before
    }
  }

  function SuccessSlots(ms: seq<UnlockedModule>, key: CString): (r: seq<Slot>)
    reads ms
    ensures |r| == |ms| && forall i :: 0 <= i < |ms| ==> r[i] == ms[i].SuccessSlot(key)
  {
    if ms == [] then [] else [ms[0].SuccessSlot(key)] + SuccessSlots(ms[1..], key)
  }

  function FailureSlots(ms: seq<UnlockedModule>, err: Err): (r: seq<Slot>)
    reads ms
    ensures |r| == |ms| && forall i :: 0 <= i < |ms| ==> r[i] == ms[i].FailureSlot(err)
  {
    if ms == [] then [] else [ms[0].FailureSlot(err)] + FailureSlots(ms[1..], err)
  }

  function InitSlots(ms: seq<UnlockedModule>): (r: seq<Slot>)
    reads ms
    ensures |r| == |ms| && forall i :: 0 <= i < |ms| ==> r[i] == ms[i].InitSlot()
  {
    if ms == [] then [] else [ms[0].InitSlot()] + InitSlots(ms[1..])
  }

  function ConfigSlots(ms: seq<UnlockedModule>, ini: Ini): (r: seq<Slot>)
    ensures |r| == |ms| && forall i :: 0 <= i < |ms| ==> r[i] == ms[i].ConfigSlot(ini)
  {
    if ms == [] then [] else [ms[0].ConfigSlot(ini)] + ConfigSlots(ms[1..], ini)
  }

  function CleanupSlots(ms: seq<UnlockedModule>): (r: seq<Slot>)
    ensures |r| == |ms| && forall i :: 0 <= i < |ms| ==> r[i] == ms[i].cleanup
  {
    if ms == [] then [] else [ms[0].cleanup] + CleanupSlots(ms[1..])
  }

  // ----- What the hooks do, over the fields of the modules -----

  /** Exactly the enabled modules that take keys got the key, up to the first that failed; its error is the result. */
  ghost predicate KeyTaken(ms: seq<UnlockedModule>, key: CString, log: seq<Event>, err: Err)
    reads ms
  {
    && (forall i: nat :: Called(i, Success(key)) in log <==>
          i < |ms| && ms[i].enabled && ms[i].success.Some?
          && forall j :: 0 <= j < i && ms[j].enabled && ms[j].success.Some? ==> ms[j].success.value(key) == UL_OK)
    && (err == UL_OK <==>
          forall i :: 0 <= i < |ms| && ms[i].enabled && ms[i].success.Some? ==>
            ms[i].success.value(key) == UL_OK)
    && (err != UL_OK ==> exists i: nat :: Called(i, Success(key)) in log && ms[i].success.value(key) == err)
  }

  /** Exactly the enabled modules that want to know of a failure were told, up to the first that failed. */
  ghost predicate FailureTold(ms: seq<UnlockedModule>, provided: Err, log: seq<Event>, err: Err)
    reads ms
  {
    && (forall i: nat :: Called(i, Failure(provided)) in log <==>
          i < |ms| && ms[i].enabled && ms[i].failure.Some?
          && forall j :: 0 <= j < i && ms[j].enabled && ms[j].failure.Some? ==>
               ms[j].failure.value(provided) == UL_OK)
    && (err == UL_OK <==>
          forall i :: 0 <= i < |ms| && ms[i].enabled && ms[i].failure.Some? ==>
            ms[i].failure.value(provided) == UL_OK)
    && (err != UL_OK ==> exists i: nat :: Called(i, Failure(provided)) in log && ms[i].failure.value(provided) == err)
  }

  /** Exactly the modules with an init callback were asked, enabled or not, up to the first that failed. */
  ghost predicate Initialized(ms: seq<UnlockedModule>, log: seq<Event>, err: Err)
    reads ms
  {
    && (forall i: nat :: Called(i, Init) in log <==>
          i < |ms| && ms[i].init.Some?
          && forall j :: 0 <= j < i && ms[j].init.Some? ==> ms[j].init.value(ms[j].enabled) == UL_OK)
    && (err == UL_OK <==>
          forall i :: 0 <= i < |ms| && ms[i].init.Some? ==>
            ms[i].init.value(ms[i].enabled) == UL_OK)
    && (err != UL_OK ==> exists i: nat :: Called(i, Init) in log && ms[i].init.value(ms[i].enabled) == err)
  }

  /** Exactly the modules that read files got the file, up to the first that failed. */
  ghost predicate FileRead(ms: seq<UnlockedModule>, ini: Ini, log: seq<Event>, err: Err)
  {
    && (forall i: nat :: Called(i, Events.ParseConfig) in log <==>
          i < |ms| && ms[i].parseConfig.Some?
          && forall j :: 0 <= j < i && ms[j].parseConfig.Some? ==> ms[j].parseConfig.value(ini).1 == UL_OK)
    && (err == UL_OK <==>
          forall i :: 0 <= i < |ms| && ms[i].parseConfig.Some? ==>
            ms[i].parseConfig.value(ini).1 == UL_OK)
    && (err != UL_OK ==> exists i: nat :: Called(i, Events.ParseConfig) in log && ms[i].parseConfig.value(ini).1 == err)
  }

  /** Exactly the modules with a cleanup callback were asked, enabled or not, up to the first that failed. */
  ghost predicate Cleaned(ms: seq<UnlockedModule>, log: seq<Event>, err: Err)
  {
    && (forall i: nat :: Called(i, Cleanup) in log <==>
          i < |ms| && ms[i].cleanup.Some?
          && forall j :: 0 <= j < i && ms[j].cleanup.Some? ==> ms[j].cleanup.value == UL_OK)
    && (err == UL_OK <==> forall i :: 0 <= i < |ms| && ms[i].cleanup.Some? ==> ms[i].cleanup.value == UL_OK)
    && (err != UL_OK ==> exists i: nat :: Called(i, Cleanup) in log && ms[i].cleanup.value == err)
  }

  /** The module has been given the file. */
  ghost predicate Reached(ms: seq<UnlockedModule>, m: UnlockedModule, log: seq<Event>) {
    exists i: nat :: i < |ms| && ms[i] == m && Called(i, Events.ParseConfig) in log
  }

  lemma ReachedExact(ms: seq<UnlockedModule>, ini: Ini)
    ensures var slots := ConfigSlots(ms, ini);
            forall m :: m in ms && m.parseConfig.Some? ==>
              (Reached(ms, m, Calls(slots, Events.ParseConfig)) <==> m in ms[..Rounds(slots)])
  {
    var slots := ConfigSlots(ms, ini);
    CallsUpToExact(slots, Events.ParseConfig, Rounds(slots));
    hide Rounds, CallsUpTo;
    forall m | m in ms[..Rounds(slots)] && m.parseConfig.Some?
      ensures Reached(ms, m, Calls(slots, Events.ParseConfig))
    {
      var i: nat :| i < Rounds(slots) && ms[..Rounds(slots)][i] == m;
      assert ms[i] == m && slots[i].Some?;
    }
  }

  lemma KeyTakenExact(ms: seq<UnlockedModule>, key: CString)
    ensures var slots := SuccessSlots(ms, key);
            KeyTaken(ms, key, Calls(slots, Success(key)), Result(slots))
  {
    var slots := SuccessSlots(ms, key);
    AskedExact(slots, Success(key));
    KeyAsked(ms, key);
    hide Calls, Result, Asked;
  }

  lemma KeyAsked(ms: seq<UnlockedModule>, key: CString)
    ensures var slots := SuccessSlots(ms, key);
            (forall i: nat :: Asked(slots, i) <==>
               i < |ms| && ms[i].enabled && ms[i].success.Some?
               && forall j :: 0 <= j < i && ms[j].enabled && ms[j].success.Some? ==> ms[j].success.value(key) == UL_OK)
            && (forall i: nat :: Asked(slots, i) ==> slots[i].value == ms[i].success.value(key))
            && ((forall i :: 0 <= i < |slots| ==> !Fails(slots[i]))
                <==> forall i :: 0 <= i < |ms| && ms[i].enabled && ms[i].success.Some? ==>
                       ms[i].success.value(key) == UL_OK)
  {
    var slots := SuccessSlots(ms, key);
    assert forall i :: 0 <= i < |ms| ==>
             slots[i] == if ms[i].enabled && ms[i].success.Some? then Some(ms[i].success.value(key)) else None;
    hide SuccessSlots;
  }

  lemma FailureToldExact(ms: seq<UnlockedModule>, provided: Err)
    ensures var slots := FailureSlots(ms, provided);
            FailureTold(ms, provided, Calls(slots, Failure(provided)), Result(slots))
  {
    var slots := FailureSlots(ms, provided);
    AskedExact(slots, Failure(provided));
    FailureAsked(ms, provided);
    hide Calls, Result, Asked;
  }

  lemma FailureAsked(ms: seq<UnlockedModule>, provided: Err)
    ensures var slots := FailureSlots(ms, provided);
            (forall i: nat :: Asked(slots, i) <==>
               i < |ms| && ms[i].enabled && ms[i].failure.Some?
               && forall j :: 0 <= j < i && ms[j].enabled && ms[j].failure.Some? ==>
                    ms[j].failure.value(provided) == UL_OK)
            && (forall i: nat :: Asked(slots, i) ==> slots[i].value == ms[i].failure.value(provided))
            && ((forall i :: 0 <= i < |slots| ==> !Fails(slots[i]))
                <==> forall i :: 0 <= i < |ms| && ms[i].enabled && ms[i].failure.Some? ==>
                       ms[i].failure.value(provided) == UL_OK)
  {
    var slots := FailureSlots(ms, provided);
    assert forall i :: 0 <= i < |ms| ==>
             slots[i] == if ms[i].enabled && ms[i].failure.Some? then Some(ms[i].failure.value(provided)) else None;
    hide FailureSlots;
  }

  lemma InitializedExact(ms: seq<UnlockedModule>)
    ensures var slots := InitSlots(ms);
            Initialized(ms, Calls(slots, Init), Result(slots))
  {
    var slots := InitSlots(ms);
    AskedExact(slots, Init);
    InitAsked(ms);
    hide Calls, Result, Asked;
  }

  lemma InitAsked(ms: seq<UnlockedModule>)
    ensures var slots := InitSlots(ms);
            (forall i: nat :: Asked(slots, i) <==>
               i < |ms| && ms[i].init.Some?
               && forall j :: 0 <= j < i && ms[j].init.Some? ==> ms[j].init.value(ms[j].enabled) == UL_OK)
            && (forall i: nat :: Asked(slots, i) ==> slots[i].value == ms[i].init.value(ms[i].enabled))
            && ((forall i :: 0 <= i < |slots| ==> !Fails(slots[i]))
                <==> forall i :: 0 <= i < |ms| && ms[i].init.Some? ==> ms[i].init.value(ms[i].enabled) == UL_OK)
  {
    var slots := InitSlots(ms);
    assert forall i :: 0 <= i < |ms| ==>
             slots[i] == if ms[i].init.Some? then Some(ms[i].init.value(ms[i].enabled)) else None;
    hide InitSlots;
  }

  lemma FileReadExact(ms: seq<UnlockedModule>, ini: Ini)
    ensures var slots := ConfigSlots(ms, ini);
            FileRead(ms, ini, Calls(slots, Events.ParseConfig), Result(slots))
  {
    var slots := ConfigSlots(ms, ini);
    AskedExact(slots, Events.ParseConfig);
    ConfigAsked(ms, ini);
    hide Calls, Result, Asked;
  }

  lemma ConfigAsked(ms: seq<UnlockedModule>, ini: Ini)
    ensures var slots := ConfigSlots(ms, ini);
            (forall i: nat :: Asked(slots, i) <==>
               i < |ms| && ms[i].parseConfig.Some?
               && forall j :: 0 <= j < i && ms[j].parseConfig.Some? ==> ms[j].parseConfig.value(ini).1 == UL_OK)
            && (forall i: nat :: Asked(slots, i) ==> slots[i].value == ms[i].parseConfig.value(ini).1)
            && ((forall i :: 0 <= i < |slots| ==> !Fails(slots[i]))
                <==> forall i :: 0 <= i < |ms| && ms[i].parseConfig.Some? ==> ms[i].parseConfig.value(ini).1 == UL_OK)
  {
    var slots := ConfigSlots(ms, ini);
    assert forall i :: 0 <= i < |ms| ==>
             slots[i] == if ms[i].parseConfig.Some? then Some(ms[i].parseConfig.value(ini).1) else None;
    hide ConfigSlots;
  }

  lemma CleanedExact(ms: seq<UnlockedModule>)
    ensures var slots := CleanupSlots(ms);
            Cleaned(ms, Calls(slots, Cleanup), Result(slots))
  {
    var slots := CleanupSlots(ms);
    AskedExact(slots, Cleanup);
    CleanupAsked(ms);
    hide Calls, Result, Asked;
  }

  lemma CleanupAsked(ms: seq<UnlockedModule>)
    ensures var slots := CleanupSlots(ms);
            (forall i: nat :: Asked(slots, i) <==>
               i < |ms| && ms[i].cleanup.Some?
               && forall j :: 0 <= j < i && ms[j].cleanup.Some? ==> ms[j].cleanup.value == UL_OK)
            && (forall i: nat :: Asked(slots, i) ==> slots[i].value == ms[i].cleanup.value)
            && ((forall i :: 0 <= i < |slots| ==> !Fails(slots[i]))
                <==> forall i :: 0 <= i < |ms| && ms[i].cleanup.Some? ==> ms[i].cleanup.value == UL_OK)
  {
  }

  /** `realloc` to a larger array: the old elements, then some value. */
  method Enlarge<T>(elements: seq<T>, length: nat, other: T) returns (a: array<T>)
    requires |elements| <= length
    ensures fresh(a) && a.Length == length && a[..|elements|] == elements
  {
    a := new T[length](i => if 0 <= i < |elements| then elements[i] else other);
  }

  // ----- The child parsers of the command line -----

  /** `struct argp_child`; argp reads an array of them up to the first without a parser. */
  datatype ArgpChild = ArgpChild(argp: Option<nat>)

  function ChildCount(children: seq<ArgpChild>): nat {
    if children == [] || children[0].argp.None? then 0 else 1 + ChildCount(children[1..])
  }

  lemma {:induction false} ChildCountExact(children: seq<ArgpChild>, n: nat)
    requires n < |children| && children[n].argp.None?
    requires forall i :: 0 <= i < n ==> children[i].argp.Some?
    ensures ChildCount(children) == n
  {
    if n > 0 {
      ChildCountExact(children[1..], n - 1);
    }
  }

  function WithParser(ms: seq<UnlockedModule>): seq<UnlockedModule> {
    if ms == [] then []
    else WithParser(ms[..|ms| - 1]) + if ms[|ms| - 1].argp.Some? then [ms[|ms| - 1]] else []
  }

  lemma WithParserAppend(ms: seq<UnlockedModule>, m: UnlockedModule)
    ensures WithParser(ms + [m]) == if m.argp.Some? then WithParser(ms) + [m] else WithParser(ms)
  {
    assert (ms + [m])[..|ms|] == ms;
  }

  /** The selection keeps the order of registration. */
  lemma {:induction false} WithParserConcat(a: seq<UnlockedModule>, b: seq<UnlockedModule>)
    ensures WithParser(a + b) == WithParser(a) + WithParser(b)
    decreases |b|
  {
    assert WithParser([]) == [];
    hide WithParser;
    if b == [] {
      assert a + b == a;
    } else {
      var front, m := b[..|b| - 1], b[|b| - 1];
      WithParserConcat(a, front);
      WithParserAppend(a + front, m);
      WithParserAppend(front, m);
      assert a + b == (a + front) + [m] && b == front + [m];
      assert WithParser(a) + (WithParser(front) + [m]) == (WithParser(a) + WithParser(front)) + [m];
    }
  }

  /** It consists of exactly the modules that bring a parser. */
  lemma {:induction false} WithParserExact(ms: seq<UnlockedModule>, m: UnlockedModule)
    ensures m in WithParser(ms) <==> m in ms && m.argp.Some?
    decreases |ms|
  {
    if ms != [] {
      WithParserExact(ms[..|ms| - 1], m);
    }
  }

  /** The growing array of parsers: the module's entry, and behind it the sentinel. */
  method GrowParsers(parsers: seq<ArgpChild>, m: UnlockedModule) returns (a: array<ArgpChild>)
    ensures fresh(a) && a[..] == parsers + [ArgpChild(m.argp), ArgpChild(None)]
  {
    a := Enlarge(parsers, |parsers| + 2, ArgpChild(None));
    a[|parsers|] := ArgpChild(m.argp);
    a[|parsers| + 1] := ArgpChild(None);
  }

  /** The growing array of inputs. */
  method GrowInputs(inputs: seq<UnlockedModule>, m: UnlockedModule) returns (a: array<UnlockedModule>)
    ensures fresh(a) && a[..] == inputs + [m]
  {
    a := Enlarge(inputs, |inputs| + 1, m);
    a[|inputs|] := m;
  }

  class ChildParsers {
    var subParsers: array?<ArgpChild>
    var inputs: array?<UnlockedModule>
    var count: nat
    /** Every module handed to `register_child_parser`, in order. */
    ghost var registered: seq<UnlockedModule>
    /** The arrays that are allocated: `realloc` releases the old one, `free_child_parsers` both. */
    ghost var live: set<object?>

    ghost predicate Valid()
      reads this, subParsers, inputs
    {
      && live == Arrays()
      && (count == 0 ==> subParsers == null && inputs == null && WithParser(registered) == [])
      && (count > 0 ==>
            && subParsers != null && subParsers.Length == count + 1
            && inputs != null && inputs.Length == count && inputs[..] == WithParser(registered)
            && (forall i :: 0 <= i < count ==> inputs[i].argp.Some? && subParsers[i] == ArgpChild(inputs[i].argp))
            && subParsers[count] == ArgpChild(None))
    }

    /** What the two pointers point to. */
    ghost function Arrays(): set<object?>
      reads this
    {
      {subParsers, inputs} - {null}
    }

    ghost function Repr(): set<object>
      reads this
    {
      {this} + (if subParsers == null then {} else {subParsers}) + (if inputs == null then {} else {inputs})
    }

    constructor ()
      ensures Valid() && registered == [] && fresh(Repr())
    {
      subParsers, inputs, count := null, null, 0;
      registered, live := [], {};
    }

    /** `register_child_parser`: both arrays grow by one, and the sentinel moves up. */
    method RegisterChildParser(m: UnlockedModule)
      requires Valid()
      modifies this
      ensures Valid() && registered == old(registered) + [m] && fresh(Repr() - old(Repr()))
      ensures count == old(count) + if m.argp.Some? then 1 else 0
    {
      hide WithParser;
      registered := registered + [m];
      WithParserAppend(old(registered), m);
      if m.argp.None? {
        return;
      }
      var parsers := if subParsers == null then [] else subParsers[..count];
      var modules := if inputs == null then [] else inputs[..];
      live := live - Arrays();
      subParsers := GrowParsers(parsers, m);
      inputs := GrowInputs(modules, m);
      live := live + Arrays();
      count := count + 1;
      assert forall i :: 0 <= i < count - 1 ==>
               subParsers[i] == subParsers[..][i] == parsers[i] && inputs[i] == modules[i];
    }

    /** What argp is given: as many children as there are inputs, in the order of registration. */
    ghost function Children(): (n: nat)
      requires Valid()
      reads this, subParsers, inputs
      ensures n == count
    {
      if subParsers == null then 0
      else
        ChildCountExact(subParsers[..], count);
        ChildCount(subParsers[..])
    }

    /**
     `parse_opt` for ARGP_KEY_INIT: each child parser gets the module that it belongs to. argp provides one slot for
     each child it has counted.
     */
    method KeyInit(childInputs: array<UnlockedModule?>)
      requires Valid() && childInputs.Length == Children() && childInputs !in Repr()
      requires childInputs as object != inputs as object?
      modifies childInputs
      ensures Valid()
      ensures childInputs[..] == WithParser(registered)
      ensures forall i :: 0 <= i < count ==>
                childInputs[i] != null && subParsers[i].argp == childInputs[i].argp
    {
      var i := 0;
      while i < count
        invariant 0 <= i <= count && Valid()
        invariant forall k :: 0 <= k < i ==> childInputs[k] == inputs[k]
      {
        childInputs[i] := inputs[i];
        i := i + 1;
      }
      assert count > 0 ==> childInputs[..] == inputs[..];
    }

    /**
     `free_child_parsers`: both arrays are released, and the pointers stay. A later registration is excluded exactly
     when they dangle.
     */
    method FreeChildParsers()
      requires Valid()
      modifies this
      ensures live == {} && count == 0 && subParsers == old(subParsers) && inputs == old(inputs)
      ensures registered == old(registered) && (Valid() <==> old(count) == 0)
    {
      live := live - {subParsers};
      live := live - {inputs};
      count := 0;
    }
  }

  // ----- The registry -----

  class ModuleRegistry {
    var modules: array<UnlockedModule>
    var moduleCount: nat
    const childParsers: ChildParsers
    const journal: Journal

    ghost predicate Valid()
      reads this
    {
      modules.Length == moduleCount
    }

    /** The registered modules in order. */
    function Modules(): seq<UnlockedModule>
      requires Valid()
      reads this, modules
    {
      modules[..]
    }

    constructor (childParsers: ChildParsers, journal: Journal)
      ensures Valid() && Modules() == [] && fresh(modules)
      ensures this.childParsers == childParsers && this.journal == journal
    {
      this.childParsers, this.journal := childParsers, journal;
      modules, moduleCount := new UnlockedModule[0], 0;
    }

    /** `register_module`. */
    method RegisterModule(m: UnlockedModule)
      requires Valid() && childParsers.Valid()
      modifies `modules, `moduleCount, childParsers
      ensures Valid() && childParsers.Valid() && fresh(modules)
      ensures Modules() == old(Modules()) + [m]
      ensures childParsers.registered == old(childParsers.registered) + [m]
    {
      var before := modules[..];
      modules := Enlarge(before, moduleCount + 1, m);
      modules[moduleCount] := m;
      moduleCount := moduleCount + 1;
      assert modules[..] == before + [m];
      childParsers.RegisterChildParser(m);
    }

    /** `handle_success`. */
    method HandleSuccess(key: CString) returns (err: Err)
      requires Valid()
      modifies journal
      ensures err == Result(SuccessSlots(Modules(), key))
      ensures journal.log == old(journal.log) + Calls(SuccessSlots(Modules(), key), Success(key))
      ensures KeyTaken(Modules(), key, journal.log[|old(journal.log)|..], err)
    {
      hide SuccessSlots, FirstFailure, Result, Calls, Rounds, KeyTaken;
      ghost var slots := SuccessSlots(Modules(), key);
      KeyTakenExact(Modules(), key);
      err := UL_OK;
      var i := 0;
      while i < moduleCount
        invariant 0 <= i <= moduleCount && err == UL_OK
        invariant forall k :: 0 <= k < i ==> !Fails(slots[k])
        invariant journal.log == old(journal.log) + CallsUpTo(slots, Success(key), i)
      {
        if modules[i].enabled && modules[i].success.Some? {
          err := modules[i].success.value(key);
          journal.log := journal.log + [Called(i, Success(key))];
        }
        i := i + 1;
        if err != UL_OK {
          Stopped(slots, Success(key), i - 1);
          return;
        }
      }
      Stopped(slots, Success(key), i);
    }

    /** `handle_failure`. */
    method HandleFailure(provided: Err) returns (err: Err)
      requires Valid()
      modifies journal
      ensures err == Result(FailureSlots(Modules(), provided))
      ensures journal.log == old(journal.log) + Calls(FailureSlots(Modules(), provided), Failure(provided))
      ensures FailureTold(Modules(), provided, journal.log[|old(journal.log)|..], err)
    {
      hide FailureSlots, FirstFailure, Result, Calls, Rounds, FailureTold;
      ghost var slots := FailureSlots(Modules(), provided);
      FailureToldExact(Modules(), provided);
      err := UL_OK;
      var i := 0;
      while i < moduleCount
        invariant 0 <= i <= moduleCount && err == UL_OK
        invariant forall k :: 0 <= k < i ==> !Fails(slots[k])
        invariant journal.log == old(journal.log) + CallsUpTo(slots, Failure(provided), i)
      {
        if modules[i].enabled && modules[i].failure.Some? {
          err := modules[i].failure.value(provided);
          journal.log := journal.log + [Called(i, Failure(provided))];
        }
        i := i + 1;
        if err != UL_OK {
          Stopped(slots, Failure(provided), i - 1);
          return;
        }
      }
      Stopped(slots, Failure(provided), i);
    }

    /** `initialize_modules`, which asks disabled modules too. */
    method InitializeModules() returns (err: Err)
      requires Valid()
      modifies journal
      ensures err == Result(InitSlots(Modules()))
      ensures journal.log == old(journal.log) + Calls(InitSlots(Modules()), Init)
      ensures Initialized(Modules(), journal.log[|old(journal.log)|..], err)
    {
      hide InitSlots, FirstFailure, Result, Calls, Rounds, Initialized;
      ghost var slots := InitSlots(Modules());
      InitializedExact(Modules());
      err := UL_OK;
      var i := 0;
      while i < moduleCount
        invariant 0 <= i <= moduleCount && err == UL_OK
        invariant forall k :: 0 <= k < i ==> !Fails(slots[k])
        invariant journal.log == old(journal.log) + CallsUpTo(slots, Init, i)
      {
        if modules[i].init.Some? {
          err := modules[i].init.value(modules[i].enabled);
          journal.log := journal.log + [Called(i, Init)];
        }
        i := i + 1;
        if err != UL_OK {
          Stopped(slots, Init, i - 1);
          return;
        }
      }
      Stopped(slots, Init, i);
    }

    /** `parse_config`: the modules that were reached have taken their `enabled` flag from the file. */
    method ParseConfig(ini: Ini) returns (err: Err)
      requires Valid()
      modifies journal, modules[..]
      ensures Valid() && Modules() == old(Modules()) && err == Result(ConfigSlots(Modules(), ini))
      ensures journal.log == old(journal.log) + Calls(ConfigSlots(Modules(), ini), Events.ParseConfig)
      ensures forall m :: m in Modules() ==>
                m.enabled == if m in Modules()[..Rounds(ConfigSlots(Modules(), ini))]
                             then m.EnabledBy(ini, old(m.enabled)) else old(m.enabled)
      ensures FileRead(Modules(), ini, journal.log[|old(journal.log)|..], err)
      ensures forall m :: m in Modules() ==>
                m.enabled == if Reached(Modules(), m, journal.log[|old(journal.log)|..]) && m.parseConfig.Some?
                                && m.parseConfig.value(ini).0.Some?
                             then m.parseConfig.value(ini).0.value else old(m.enabled)
    {
      hide ConfigSlots, FirstFailure, Result, Calls, Rounds, FileRead, Reached;
      ghost var ms := Modules();
      ghost var slots := ConfigSlots(ms, ini);
      FileReadExact(Modules(), ini);
      ReachedExact(Modules(), ini);
      err := UL_OK;
      var i := 0;
      while i < moduleCount
        invariant 0 <= i <= moduleCount && err == UL_OK && Valid() && Modules() == ms
        invariant forall k :: 0 <= k < i ==> !Fails(slots[k])
        invariant journal.log == old(journal.log) + CallsUpTo(slots, Events.ParseConfig, i)
        invariant forall m :: m in ms ==>
                    m.enabled == if m in ms[..i] then m.EnabledBy(ini, old(m.enabled)) else old(m.enabled)
      {
        err := GiveFile(modules[i], i, ini);
        assert ms[..i + 1] == ms[..i] + [ms[i]];
        i := i + 1;
        if err != UL_OK {
          Stopped(slots, Events.ParseConfig, i - 1);
          return;
        }
      }
      Stopped(slots, Events.ParseConfig, i);
    }

    /** The round of one module. */
    method GiveFile(m: UnlockedModule, i: nat, ini: Ini) returns (err: Err)
      modifies journal, m
      ensures m.enabled == m.EnabledBy(ini, old(m.enabled))
      ensures err == if m.parseConfig.Some? then m.parseConfig.value(ini).1 else UL_OK
      ensures journal.log == old(journal.log)
                             + if m.parseConfig.Some? then [Called(i, Events.ParseConfig)] else []
    {
      err := UL_OK;
      if m.parseConfig.Some? {
        var (setting, e) := m.parseConfig.value(ini);
        if setting.Some? {
          m.enabled := setting.value;
        }
        err := e;
        journal.log := journal.log + [Called(i, Events.ParseConfig)];
      }
    }

    /** `cleanup_modules`: the registry is emptied only when no module fails. */
    method CleanupModules() returns (err: Err)
      requires Valid()
      modifies journal, `modules, `moduleCount
      ensures Valid() && err == Result(CleanupSlots(old(Modules())))
      ensures journal.log == old(journal.log) + Calls(CleanupSlots(old(Modules())), Cleanup)
      ensures Modules() == if err == UL_OK then [] else old(Modules())
      ensures Cleaned(old(Modules()), journal.log[|old(journal.log)|..], err)
    {
      hide CleanupSlots, FirstFailure, Result, Calls, Rounds, Cleaned;
      ghost var slots := CleanupSlots(Modules());
      CleanedExact(Modules());
      err := UL_OK;
      var i := 0;
      while i < moduleCount
        invariant 0 <= i <= moduleCount && err == UL_OK
        invariant modules == old(modules) && moduleCount == old(moduleCount)
        invariant forall k :: 0 <= k < i ==> !Fails(slots[k])
        invariant journal.log == old(journal.log) + CallsUpTo(slots, Cleanup, i)
      {
        if modules[i].cleanup.Some? {
          err := modules[i].cleanup.value;
          journal.log := journal.log + [Called(i, Cleanup)];
        }
        i := i + 1;
        if err != UL_OK {
          Stopped(slots, Cleanup, i - 1);
          return;
        }
      }
      Stopped(slots, Cleanup, i);
      modules, moduleCount := new UnlockedModule[0], 0;
    }
  }

  /** Any sequence of registrations, such as the two at the start of `main`. */
  method RegisterAll(registry: ModuleRegistry, ms: seq<UnlockedModule>)
    requires registry.Valid() && registry.childParsers.Valid()
    requires registry.Modules() == [] && registry.childParsers.registered == []
    modifies registry`modules, registry`moduleCount, registry.childParsers
    ensures registry.Valid() && registry.childParsers.Valid()
    ensures registry.Modules() == ms && registry.childParsers.registered == ms
    ensures registry.childParsers.count == |WithParser(ms)|
  {
    hide WithParser;
    var i := 0;
    while i < |ms|
      invariant 0 <= i <= |ms| && registry.Valid() && registry.childParsers.Valid()
      invariant registry.Modules() == ms[..i] && registry.childParsers.registered == ms[..i]
    {
      registry.RegisterModule(ms[i]);
      i := i + 1;
    }
    assert ms[..i] == ms;
    var parsers := registry.childParsers;
    assert parsers.count > 0 ==> |parsers.inputs[..]| == parsers.count;
  }
}
