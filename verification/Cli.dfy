/** The arguments of `src/cli.c`: layers, their merge, and who owns the strings. */
module Cli {
  import opened Text
  import opened Memory
  import opened Events
  import opened Dispatching
  import opened Registry

  /** The string fields of `struct arguments`. */
  datatype Field = ConfigFile | KeyHandle | Host | Secret | Username

  /** -1, 0 and 1. */
  datatype Tristate = No | Unset | Yes

  /** What a structure says: a field that is NULL, 0 or unset says nothing. */
  datatype Values = Values(strings: map<Field, CString>, port: int, validate: Tristate, verbose: Tristate)

  /** The fields of a structure as its user reads them. */
  datatype Settings = Settings(configFile: Option<CString>, keyHandle: Option<CString>, host: Option<CString>,
                               port: int, secret: Option<CString>, username: Option<CString>, validate: Tristate,
                               verbose: Tristate)

  function SettingsOf(v: Values): Settings {
    Settings(Get(v.strings, ConfigFile), Get(v.strings, KeyHandle), Get(v.strings, Host), v.port,
             Get(v.strings, Secret), Get(v.strings, Username), v.validate, v.verbose)
  }

  const UNSET := Values(map[], 0, Unset, Unset)

  function Merge(base: Values, layer: Values): Values {
    Values(base.strings + layer.strings,
           if layer.port != 0 then layer.port else base.port,
           if layer.validate != Unset then layer.validate else base.validate,
           if layer.verbose != Unset then layer.verbose else base.verbose)
  }

  function MergeAll(layers: seq<Values>): Values {
    if layers == [] then UNSET else Merge(MergeAll(layers[..|layers| - 1]), layers[|layers| - 1])
  }

  lemma MergeMonoid(a: Values, b: Values, c: Values)
    ensures Merge(Merge(a, b), c) == Merge(a, Merge(b, c))
    ensures Merge(UNSET, a) == a && Merge(a, UNSET) == a
  {
    assert (a.strings + b.strings) + c.strings == a.strings + (b.strings + c.strings);
    assert map[] + a.strings == a.strings;
  }

  /** No layer above `k` speaks where `sets` says so. */
  predicate LastSetter(layers: seq<Values>, sets: Values -> bool, k: nat)
    requires k < |layers|
  {
    sets(layers[k]) && forall j :: k < j < |layers| ==> !sets(layers[j])
  }

  /** The documented order: every field has the value of the last layer that sets it. */
  lemma {:induction false} LastLayerWins(layers: seq<Values>, k: nat)
    requires k < |layers|
    ensures forall f: Field :: LastSetter(layers, (v: Values) => f in v.strings, k) ==>
              f in MergeAll(layers).strings && MergeAll(layers).strings[f] == layers[k].strings[f]
    ensures LastSetter(layers, (v: Values) => v.port != 0, k) ==> MergeAll(layers).port == layers[k].port
    ensures LastSetter(layers, (v: Values) => v.validate != Unset, k) ==>
              MergeAll(layers).validate == layers[k].validate
    ensures LastSetter(layers, (v: Values) => v.verbose != Unset, k) ==> MergeAll(layers).verbose == layers[k].verbose
    decreases |layers|
  {
    var below := layers[..|layers| - 1];
    if k < |below| {
      LastLayerWins(below, k);
      assert forall j :: 0 <= j < |below| ==> below[j] == layers[j];
    }
  }

  lemma {:induction false} NoLayerNoValue(layers: seq<Values>, f: Field)
    ensures f in MergeAll(layers).strings <==> exists k :: 0 <= k < |layers| && f in layers[k].strings
    decreases |layers|
  {
    if layers != [] {
      var n := |layers| - 1;
      NoLayerNoValue(layers[..n], f);
      assert forall j :: 0 <= j < n ==> layers[..n][j] == layers[j];
    }
  }

  // ----- Ownership -----

  /** The strings of a structure: for each field that is not NULL, its block. */
  type Ptrs = map<Field, Ptr>

  /** Every string, and the structure, is a live block of its own. */
  ghost predicate Sound(self: Ptr, ptrs: Ptrs, m: Mem, statics: set<Ptr>) {
    && self in m && self !in statics
    && (forall f :: f in ptrs ==> IsString(m, ptrs[f]) && ptrs[f] !in statics && ptrs[f] != self)
    && (forall f, g :: f in ptrs && g in ptrs && f != g ==> ptrs[f] != ptrs[g])
  }

  ghost function Texts(ptrs: Ptrs, m: Mem): map<Field, CString>
    requires forall f :: f in ptrs ==> ptrs[f] in m
  {
    map f | f in ptrs :: StringAt(m, ptrs[f])
  }

  ghost function BlocksOf(self: Ptr, ptrs: Ptrs): set<Ptr> {
    {self} + ptrs.Values
  }

  ghost function Behind(ptrs: Ptrs, f: Field): set<Ptr> {
    if f in ptrs then {ptrs[f]} else {}
  }

  lemma FrameSound(self: Ptr, ptrs: Ptrs, m: Mem, m': Mem, statics: set<Ptr>)
    requires Sound(self, ptrs, m, statics)
    requires forall p :: p in BlocksOf(self, ptrs) ==> p in m && p in m' && m'[p] == m[p]
    ensures Sound(self, ptrs, m', statics) && Texts(ptrs, m') == Texts(ptrs, m)
  {
    assert forall f :: f in ptrs ==> ptrs[f] in ptrs.Values;
  }

  /** Pointing a field at a new block leaves the other fields alone, and the old block without an owner. */
  lemma Repointed(self: Ptr, ptrs: Ptrs, m: Mem, statics: set<Ptr>, f: Field, p: Ptr, s: CString)
    requires Sound(self, ptrs, m, statics) && p !in m && p !in statics
    ensures var ptrs', m' := ptrs[f := p], m[p := s + "\0"];
            && Sound(self, ptrs', m', statics)
            && Texts(ptrs', m') == Texts(ptrs, m)[f := s]
            && BlocksOf(self, ptrs') == BlocksOf(self, ptrs) - Behind(ptrs, f) + {p}
  {
    hide CStr, Texts, Behind, BlocksOf;
    CStrOfString(s);
    RepointedBlocks(self, ptrs, f, p);
    RepointedTexts(ptrs, m, f, p, s);
  }

  lemma RepointedTexts(ptrs: Ptrs, m: Mem, f: Field, p: Ptr, s: CString)
    requires p !in m && forall g :: g in ptrs ==> ptrs[g] in m
    ensures Texts(ptrs[f := p], m[p := s + "\0"]) == Texts(ptrs, m)[f := s]
  {
    hide CStr;
    CStrOfString(s);
    var ptrs', m' := ptrs[f := p], m[p := s + "\0"];
    forall g | g in ptrs' ensures Texts(ptrs', m')[g] == Texts(ptrs, m)[f := s][g] {
      if g != f {
        assert ptrs'[g] == ptrs[g] && m'[ptrs[g]] == m[ptrs[g]];
      }
    }
  }

  lemma RepointedBlocks(self: Ptr, ptrs: Ptrs, f: Field, p: Ptr)
    requires forall f, g :: f in ptrs && g in ptrs && f != g ==> ptrs[f] != ptrs[g]
    requires f in ptrs ==> ptrs[f] != self
    ensures BlocksOf(self, ptrs[f := p]) == BlocksOf(self, ptrs) - Behind(ptrs, f) + {p}
  {
    var ptrs' := ptrs[f := p];
    assert ptrs'[f] == p;
    forall q | q in ptrs.Values - Behind(ptrs, f) ensures q in ptrs'.Values {
      var g :| g in ptrs && ptrs[g] == q;
      assert ptrs'[g] == q;
    }
    assert ptrs'.Values == ptrs.Values - Behind(ptrs, f) + {p};
  }

  /** Releasing the old block then is safe. */
  lemma Released(self: Ptr, ptrs: Ptrs, m: Mem, statics: set<Ptr>, dead: set<Ptr>)
    requires Sound(self, ptrs, m, statics) && dead !! BlocksOf(self, ptrs)
    ensures Sound(self, ptrs, m - dead, statics) && Texts(ptrs, m - dead) == Texts(ptrs, m)
  {
    assert forall f :: f in ptrs ==> ptrs[f] in ptrs.Values;
    FrameSound(self, ptrs, m, m - dead, statics);
  }

  lemma BehindIsOwned(self: Ptr, ptrs: Ptrs, m: Mem, statics: set<Ptr>, f: Field)
    requires Sound(self, ptrs, m, statics)
    ensures Behind(ptrs, f) <= BlocksOf(self, ptrs) && self !in Behind(ptrs, f)
    ensures BlocksOf(self, ptrs) <= m.Keys && BlocksOf(self, ptrs) !! statics
  {
  }

  /** One block for the structure and one for each text. */
  lemma BlocksCount(self: Ptr, ptrs: Ptrs, m: Mem, statics: set<Ptr>)
    requires Sound(self, ptrs, m, statics)
    ensures |BlocksOf(self, ptrs)| == 1 + |Texts(ptrs, m)|
  {
    ValuesCount(ptrs);
    assert self !in ptrs.Values;
    assert Texts(ptrs, m).Keys == ptrs.Keys;
  }

  lemma {:induction false} ValuesCount(ptrs: Ptrs)
    requires forall f, g :: f in ptrs && g in ptrs && f != g ==> ptrs[f] != ptrs[g]
    ensures |ptrs.Values| == |ptrs.Keys|
    decreases |ptrs.Keys|
  {
    if f :| f in ptrs.Keys {
      var rest := ptrs - {f};
      assert rest.Keys == ptrs.Keys - {f};
      ValuesCount(rest);
      forall p | p in ptrs.Values - {ptrs[f]} ensures p in rest.Values {
        var g :| g in ptrs && ptrs[g] == p;
        assert rest[g] == p;
      }
      assert rest.Values == ptrs.Values - {ptrs[f]};
    } else {
      assert ptrs.Values == {};
    }
  }

  const ARGUMENTS_SIZE: nat := 64

  class Arguments {
    /** The block of the structure itself. */
    const self: Ptr
    var configFile: Ptr
    var keyHandle: Ptr
    var host: Ptr
    var port: int
    var secret: Ptr
    var username: Ptr
    var validate: Tristate
    var verbose: Tristate

    function Str(f: Field): Ptr
      reads `configFile, `keyHandle, `host, `secret, `username
    {
      match f
      case ConfigFile => configFile
      case KeyHandle => keyHandle
      case Host => host
      case Secret => secret
      case Username => username
    }

    ghost function Strings(): Ptrs
      reads `configFile, `keyHandle, `host, `secret, `username
    {
      map f: Field | Str(f) != NULL :: Str(f)
    }

    ghost function Repr(): set<Ptr>
      reads `configFile, `keyHandle, `host, `secret, `username
    {
      BlocksOf(self, Strings())
    }

    ghost predicate Valid(heap: Heap)
      reads `configFile, `keyHandle, `host, `secret, `username, heap
    {
      heap.Valid() && Sound(self, Strings(), heap.mem, heap.statics)
    }

    ghost function TextsIn(heap: Heap): map<Field, CString>
      requires Valid(heap)
      reads `configFile, `keyHandle, `host, `secret, `username, heap
    {
      Texts(Strings(), heap.mem)
    }

    ghost function ValuesIn(heap: Heap): Values
      requires Valid(heap)
      reads this, heap
    {
      Values(TextsIn(heap), port, validate, verbose)
    }

    ghost function Held(heap: Heap): Settings
      reads this, heap
    {
      Settings(Contents(heap.mem, configFile), Contents(heap.mem, keyHandle), Contents(heap.mem, host), port,
               Contents(heap.mem, secret), Contents(heap.mem, username), validate, verbose)
    }

    lemma HeldExact(heap: Heap)
      requires Valid(heap)
      ensures Held(heap) == SettingsOf(ValuesIn(heap))
    {
      HeldText(heap, ConfigFile);
      HeldText(heap, KeyHandle);
      HeldText(heap, Host);
      HeldText(heap, Secret);
      HeldText(heap, Username);
    }

    lemma HeldText(heap: Heap, f: Field)
      requires Valid(heap)
      ensures Contents(heap.mem, Str(f)) == Get(TextsIn(heap), f)
    {
    }

    /** `create_args`. */
    constructor (heap: Heap)
      requires heap.Valid() && heap.reliable
      modifies heap
      ensures Valid(heap) && heap.next >= old(heap.next)
      ensures ValuesIn(heap) == UNSET && heap.mem - Repr() == old(heap.mem)
    {
      var p := heap.Malloc(ARGUMENTS_SIZE);
      self := p;
      configFile, keyHandle, host, secret, username := NULL, NULL, NULL, NULL, NULL;
      port, validate, verbose := 0, Unset, Unset;
      new;
      assert Strings() == map[];
      assert heap.mem - {p} == old(heap.mem);
    }

    method SetStr(f: Field, p: Ptr)
      requires p != NULL
      modifies `configFile, `keyHandle, `host, `secret, `username
      ensures Strings() == old(Strings())[f := p]
    {
      match f {
        case ConfigFile => configFile := p;
        case KeyHandle => keyHandle := p;
        case Host => host := p;
        case Secret => secret := p;
        case Username => username := p;
      }
      assert forall g: Field :: g.ConfigFile? || g.KeyHandle? || g.Host? || g.Secret? || g.Username?;
      assert forall g: Field :: Str(g) == if g == f then p else old(Str(g));
    }

    /**
     One field is pointed at a fresh copy of `s`; what it pointed to before is not released, and is returned as
     leaked. This is what `parse_opt` and `parse_config_file` do.
     */
    method Assign(heap: Heap, f: Field, s: CString) returns (ghost leaked: set<Ptr>)
      requires Valid(heap) && heap.reliable
      modifies heap, `configFile, `keyHandle, `host, `secret, `username
      ensures Valid(heap) && heap.next >= old(heap.next)
      ensures TextsIn(heap) == old(TextsIn(heap))[f := s]
      ensures leaked == old(Behind(Strings(), f))
      ensures leaked !! Repr() && leaked <= heap.mem.Keys
      ensures heap.mem - Repr() - leaked == old(heap.mem - Repr())
    {
      hide Sound, CStr, Behind, BlocksOf;
      ghost var m, ptrs := heap.mem, Strings();
      leaked := Behind(ptrs, f);
      BehindIsOwned(self, ptrs, m, heap.statics, f);
      var p := heap.Strdup(s);
      SetStr(f, p);
      Repointed(self, ptrs, m, heap.statics, f, p, s);
      assert heap.mem - Repr() - leaked == m - BlocksOf(self, ptrs);
    }

    lemma StrIsBehind(f: Field)
      ensures Behind(Strings(), f) == if Str(f) == NULL then {} else {Str(f)}
    {
    }

    /** `free_args`. */
    method Free(heap: Heap)
      requires Valid(heap)
      modifies heap
      ensures heap.Valid() && heap.next == old(heap.next) && heap.mem == old(heap.mem) - Repr()
    {
      hide Sound, BlocksAt, BlocksOf, Arguments.Strings, Arguments.Str;
      ghost var m := heap.mem;
      NoBlocks(m, Strings());
      ghost var done := FreeString(heap, ConfigFile, m, {});
      done := FreeString(heap, KeyHandle, m, done);
      done := FreeString(heap, Host, m, done);
      done := FreeString(heap, Secret, m, done);
      done := FreeString(heap, Username, m, done);
      AllBlocks(self, Strings(), m, heap.statics, done);
      heap.Free(self);
    }

    /** One `if (field) free(field)`; the strings of `done` have been released since `m`. */
    method FreeString(heap: Heap, f: Field, ghost m: Mem, ghost done: set<Field>) returns (ghost done': set<Field>)
      requires heap.Valid() && Sound(self, Strings(), m, heap.statics) && f !in done
      requires heap.mem == m - BlocksAt(Strings(), done)
      modifies heap
      ensures heap.Valid() && heap.next == old(heap.next)
      ensures done' == done + {f} && heap.mem == m - BlocksAt(Strings(), done')
    {
      hide CStr;
      done' := done + {f};
      NextBlock(self, Strings(), m, heap.statics, done, f);
      StrIsBehind(f);
      if Str(f) != NULL {
        heap.Free(Str(f));
      }
    }
  }

  /** The strings behind some of the fields. */
  ghost function BlocksAt(ptrs: Ptrs, fields: set<Field>): set<Ptr> {
    set f | f in fields && f in ptrs :: ptrs[f]
  }

  lemma NoBlocks(m: Mem, ptrs: Ptrs)
    ensures m - BlocksAt(ptrs, {}) == m
  {
  }

  lemma NextBlock(self: Ptr, ptrs: Ptrs, m: Mem, statics: set<Ptr>, done: set<Field>, f: Field)
    requires Sound(self, ptrs, m, statics) && f !in done
    ensures BlocksAt(ptrs, done + {f}) == BlocksAt(ptrs, done) + Behind(ptrs, f)
    ensures Behind(ptrs, f) !! BlocksAt(ptrs, done) && Behind(ptrs, f) <= m.Keys && Behind(ptrs, f) !! statics
    ensures m - BlocksAt(ptrs, done + {f}) == (m - BlocksAt(ptrs, done)) - Behind(ptrs, f)
  {
  }

  lemma AllBlocks(self: Ptr, ptrs: Ptrs, m: Mem, statics: set<Ptr>, all: set<Field>)
    requires Sound(self, ptrs, m, statics)
    requires ConfigFile in all && KeyHandle in all && Host in all && Secret in all && Username in all
    ensures m - BlocksAt(ptrs, all) - {self} == m - BlocksOf(self, ptrs)
    ensures self in m - BlocksAt(ptrs, all) && self !in statics
  {
    assert forall f: Field :: f.ConfigFile? || f.KeyHandle? || f.Host? || f.Secret? || f.Username?;
    assert BlocksAt(ptrs, all) == ptrs.Values;
    assert BlocksOf(self, ptrs) == ptrs.Values + {self};
  }

  /** One branch of `merge_config` for a string: release the old, keep a copy of the new. */
  method MergeString(heap: Heap, base: Arguments, layer: Arguments, f: Field)
    requires base != layer && base.Valid(heap) && layer.Valid(heap) && base.Repr() !! layer.Repr() && heap.reliable
    modifies heap, base`configFile, base`keyHandle, base`host, base`secret, base`username
    ensures base.Valid(heap) && layer.Valid(heap) && base.Repr() !! layer.Repr() && heap.next >= old(heap.next)
    ensures base.TextsIn(heap) == MergeField(old(base.TextsIn(heap)), old(layer.TextsIn(heap)), f)
    ensures layer.TextsIn(heap) == old(layer.TextsIn(heap))
    ensures heap.mem - base.Repr() == old(heap.mem - base.Repr())
  {
    hide Sound, CStr, Behind, BlocksOf;
    ghost var m, ptrs, statics := heap.mem, base.Strings(), heap.statics;
    LayerString(heap, layer, f);
    if layer.Str(f) == NULL {
      return;
    }
    var s := StringAt(heap.mem, layer.Str(f));
    BehindIsOwned(base.self, ptrs, m, statics, f);
    BehindIsOwned(layer.self, layer.Strings(), m, statics, f);
    Replace(heap, base, f, s);
    ghost var rest := m - old(base.Repr());
    assert forall p :: p in layer.Repr() ==> p in rest && rest[p] == m[p];
    FrameSound(layer.self, layer.Strings(), m, heap.mem, statics);
  }

  lemma LayerString(heap: Heap, layer: Arguments, f: Field)
    requires layer.Valid(heap)
    ensures layer.Str(f) != NULL <==> f in layer.TextsIn(heap)
    ensures layer.Str(f) != NULL ==>
              layer.Str(f) in heap.mem && layer.TextsIn(heap)[f] == StringAt(heap.mem, layer.Str(f))
  {
  }

  /** `free` of the old string, if there is one, and `strdup` of the new. */
  method Replace(heap: Heap, base: Arguments, f: Field, s: CString)
    requires base.Valid(heap) && heap.reliable
    modifies heap, base`configFile, base`keyHandle, base`host, base`secret, base`username
    ensures base.Valid(heap) && heap.next >= old(heap.next)
    ensures base.TextsIn(heap) == old(base.TextsIn(heap))[f := s]
    ensures heap.mem - base.Repr() == old(heap.mem - base.Repr())
  {
    hide Arguments.Strings, Arguments.Str, Sound, Texts, CStr, BlocksOf;
    ghost var m, ptrs, statics := heap.mem, base.Strings(), heap.statics;
    ghost var dead := Behind(ptrs, f);
    BehindIsOwned(base.self, ptrs, m, statics, f);
    base.StrIsBehind(f);
    heap.Free(base.Str(f));
    assert heap.mem == m - dead;
    var p := heap.Strdup(s);
    base.SetStr(f, p);
    Repointed(base.self, ptrs, m, statics, f, p, s);
    assert heap.mem == m[p := s + "\0"] - dead;
    Released(base.self, base.Strings(), m[p := s + "\0"], statics, dead);
    assert heap.mem - base.Repr() == m - BlocksOf(base.self, ptrs);
  }

  function MergeField(base: map<Field, CString>, layer: map<Field, CString>, f: Field): map<Field, CString> {
    if f in layer then base[f := layer[f]] else base
  }

  /**
   `merge_config`: the values merge, the layer stays as it was, and base shares no block with it, so that the layer
   can be freed.
   */
  method MergeConfig(heap: Heap, base: Arguments, layer: Arguments)
    requires base != layer && base.Valid(heap) && layer.Valid(heap) && base.Repr() !! layer.Repr() && heap.reliable
    modifies heap, base
    ensures base.Valid(heap) && layer.Valid(heap) && base.Repr() !! layer.Repr() && heap.next >= old(heap.next)
    ensures base.ValuesIn(heap) == Merge(old(base.ValuesIn(heap)), old(layer.ValuesIn(heap)))
    ensures layer.ValuesIn(heap) == old(layer.ValuesIn(heap))
    ensures heap.mem - base.Repr() == old(heap.mem - base.Repr())
  {
    hide Arguments.Valid, Arguments.TextsIn, Arguments.Repr, MergeField;
    ghost var b, l := base.TextsIn(heap), layer.TextsIn(heap);
    MergeString(heap, base, layer, ConfigFile);
    MergeString(heap, base, layer, KeyHandle);
    MergeString(heap, base, layer, Host);
    if layer.port != 0 {
      base.port := layer.port;
    }
    MergeString(heap, base, layer, Secret);
    MergeString(heap, base, layer, Username);
    if layer.validate != Unset {
      base.validate := layer.validate;
    }
    if layer.verbose != Unset {
      base.verbose := layer.verbose;
    }
    MergeFieldwise(b, l);
  }

  lemma MergeFieldwise(b: map<Field, CString>, l: map<Field, CString>)
    ensures MergeField(MergeField(MergeField(MergeField(MergeField(b, l, ConfigFile), l, KeyHandle), l, Host), l,
                                  Secret), l, Username) == b + l
  {
    hide MergeField;
    var r1 := MergeField(b, l, ConfigFile);
    var r2 := MergeField(r1, l, KeyHandle);
    var r3 := MergeField(r2, l, Host);
    var r4 := MergeField(r3, l, Secret);
    var r := MergeField(r4, l, Username);
    forall f: Field
      ensures Get(r, f) == Get(b + l, f)
    {
      MergeFieldGet(b, l, ConfigFile, f);
      MergeFieldGet(r1, l, KeyHandle, f);
      MergeFieldGet(r2, l, Host, f);
      MergeFieldGet(r3, l, Secret, f);
      MergeFieldGet(r4, l, Username, f);
    }
    assert forall f :: f in r <==> Get(r, f).Some?;
    assert forall f :: f in b + l <==> Get(b + l, f).Some?;
    assert r == b + l;
  }

  function Get(m: map<Field, CString>, f: Field): Option<CString> {
    if f in m then Some(m[f]) else None
  }

  lemma MergeFieldGet(b: map<Field, CString>, l: map<Field, CString>, f: Field, g: Field)
    ensures Get(MergeField(b, l, f), g) == if g == f && f in l then Get(l, f) else Get(b, g)
  {
  }

  // ----- The command line -----

  /** One option as argp hands it to a parser; `Enable` is a module's own option, such as `--stdout`. */
  datatype Opt =
    | Text(field: Field, arg: CString)
    | Port(number: int)
    | SkipValidation
    | Verbose
    | Enable(m: UnlockedModule)

  function SetOpt(v: Values, o: Opt): Values {
    match o
    case Text(f, arg) => v.(strings := v.strings[f := arg])
    case Port(n) => v.(port := n)
    case SkipValidation => v.(validate := No)
    case Verbose => v.(verbose := Yes)
    case Enable(_) => v
  }

  /** The values after all options: a later option replaces an earlier one. */
  function Apply(v: Values, opts: seq<Opt>): Values {
    if opts == [] then v else SetOpt(Apply(v, opts[..|opts| - 1]), opts[|opts| - 1])
  }

  /** The argument of the last option for a text. */
  function LastText(opts: seq<Opt>, f: Field): Option<CString> {
    if opts == [] then None
    else
      var last := opts[|opts| - 1];
      if last.Text? && last.field == f then Some(last.arg) else LastText(opts[..|opts| - 1], f)
  }

  lemma {:induction false} LastTextExact(opts: seq<Opt>, f: Field, i: nat)
    requires forall j :: i <= j < |opts| ==> !(opts[j].Text? && opts[j].field == f)
    ensures i == 0 ==> LastText(opts, f) == None
    ensures 0 < i <= |opts| && opts[i - 1].Text? && opts[i - 1].field == f ==>
              LastText(opts, f) == Some(opts[i - 1].arg)
    decreases |opts|
  {
    if opts != [] && i < |opts| {
      LastTextExact(opts[..|opts| - 1], f, i);
    }
  }

  /** The argument of the last `--port`; 0, which is no port, if there is none. */
  function LastPort(opts: seq<Opt>): int {
    if opts == [] then 0
    else if opts[|opts| - 1].Port? then opts[|opts| - 1].number
    else LastPort(opts[..|opts| - 1])
  }

  /** Each option reaches its own field. */
  lemma {:induction false} OptionsExact(opts: seq<Opt>)
    ensures SettingsOf(Apply(UNSET, opts))
         == Settings(LastText(opts, ConfigFile), LastText(opts, KeyHandle), LastText(opts, Host), LastPort(opts),
                     LastText(opts, Secret), LastText(opts, Username),
                     if SkipValidation in opts then No else Unset, if Verbose in opts then Yes else Unset)
    decreases |opts|
  {
    if opts != [] {
      var front, last := opts[..|opts| - 1], opts[|opts| - 1];
      OptionsExact(front);
      OptionExact(Apply(UNSET, front), last);
      assert opts == front + [last];
      assert forall o :: o in opts <==> o in front || o == last;
      hide SetOpt, SettingsOf;
    }
  }

  lemma OptionExact(v: Values, o: Opt)
    ensures var s := SettingsOf(v);
            SettingsOf(SetOpt(v, o)) ==
            match o
            case Text(ConfigFile, arg) => s.(configFile := Some(arg))
            case Text(KeyHandle, arg) => s.(keyHandle := Some(arg))
            case Text(Host, arg) => s.(host := Some(arg))
            case Text(Secret, arg) => s.(secret := Some(arg))
            case Text(Username, arg) => s.(username := Some(arg))
            case Port(n) => s.(port := n)
            case SkipValidation => s.(validate := No)
            case Verbose => s.(verbose := Yes)
            case Enable(_) => s
  {
  }

  function TextCount(opts: seq<Opt>): nat {
    if opts == [] then 0 else TextCount(opts[..|opts| - 1]) + if opts[|opts| - 1].Text? then 1 else 0
  }

  ghost function Enabled(opts: seq<Opt>): set<UnlockedModule> {
    set o | o in opts && o.Enable? :: o.m
  }

  /**
   `argp_parse` with `parse_opt` and the parsers of the modules. A repeated text option leaves its first copy behind:
   one block is lost for every text option beyond the fields that end up set.
   */
  method ParseOpts(heap: Heap, args: Arguments, opts: seq<Opt>) returns (ghost leaked: set<Ptr>)
    requires args.Valid(heap) && heap.reliable
    modifies heap, args, Enabled(opts)
    ensures args.Valid(heap) && heap.next >= old(heap.next)
    ensures args.ValuesIn(heap) == Apply(old(args.ValuesIn(heap)), opts)
    ensures leaked !! args.Repr() && leaked <= heap.mem.Keys
    ensures heap.mem - args.Repr() - leaked == old(heap.mem - args.Repr())
    ensures |leaked| + |args.TextsIn(heap)| == old(|args.TextsIn(heap)|) + TextCount(opts)
    ensures forall m :: m in Enabled(opts) ==> m.enabled
  {
    ghost var v, rest := args.ValuesIn(heap), heap.mem - args.Repr();
    hide Parsed, Arguments.Valid, Arguments.Repr, Arguments.TextsIn, SetOpt, Apply, TextCount, Enabled;
    leaked := {};
    ParsedFirst(heap, args, v, rest);
    EnabledStep(opts, 0);
    var i := 0;
    assert opts[..0] == [];
    while i < |opts|
      invariant 0 <= i <= |opts|
      invariant args.Valid(heap) && heap.next >= old(heap.next)
      invariant Parsed(heap, args, opts[..i], v, rest, leaked)
      invariant forall m :: m in Enabled(opts[..i]) ==> m.enabled
    {
      EnabledStep(opts, i);
      leaked := ParseNext(heap, args, opts, i, v, rest, leaked);
      i := i + 1;
    }
    assert opts[..i] == opts;
    ParsedMeans(heap, args, opts, v, rest, leaked);
  }

  lemma EnabledStep(opts: seq<Opt>, i: nat)
    requires i <= |opts|
    ensures Enabled([]) == {}
    ensures i < |opts| ==>
              && Enabled(opts[..i + 1]) == Enabled(opts[..i]) + (if opts[i].Enable? then {opts[i].m} else {})
              && (opts[i].Enable? ==> opts[i].m in Enabled(opts))
  {
    if i < |opts| {
      assert opts[..i + 1] == opts[..i] + [opts[i]];
    }
  }

  lemma ParsedFirst(heap: Heap, args: Arguments, v: Values, rest: Mem)
    requires args.Valid(heap) && v == args.ValuesIn(heap) && rest == heap.mem - args.Repr()
    ensures Parsed(heap, args, [], v, rest, {})
  {
    hide Arguments.Valid, Arguments.Repr, Arguments.TextsIn;
    assert rest - {} == rest;
  }

  lemma ParsedMeans(heap: Heap, args: Arguments, done: seq<Opt>, v: Values, rest: Mem, leaked: set<Ptr>)
    requires args.Valid(heap) && Parsed(heap, args, done, v, rest, leaked)
    ensures args.ValuesIn(heap) == Apply(v, done)
    ensures leaked !! args.Repr() && leaked <= heap.mem.Keys && heap.mem - args.Repr() - leaked == rest
    ensures |leaked| + |args.TextsIn(heap)| == |v.strings| + TextCount(done)
  {
    hide Arguments.Valid, Arguments.Repr, Arguments.TextsIn;
  }

  /** What holds after the options `done`, from the values `v` and the heap `rest` outside the structure. */
  ghost predicate Parsed(heap: Heap, args: Arguments, done: seq<Opt>, v: Values, rest: Mem, leaked: set<Ptr>)
    requires args.Valid(heap)
    reads heap, args
  {
    && args.ValuesIn(heap) == Apply(v, done)
    && leaked !! args.Repr() && leaked <= heap.mem.Keys
    && heap.mem - args.Repr() - leaked == rest
    && |leaked| + |args.TextsIn(heap)| == |v.strings| + TextCount(done)
  }

  method ParseNext(heap: Heap, args: Arguments, opts: seq<Opt>, i: nat, ghost v: Values, ghost rest: Mem,
                   ghost leaked: set<Ptr>) returns (ghost leaked': set<Ptr>)
    requires args.Valid(heap) && heap.reliable && i < |opts| && Parsed(heap, args, opts[..i], v, rest, leaked)
    modifies heap, args, (if opts[i].Enable? then {opts[i].m} else {})
    ensures args.Valid(heap) && heap.next >= old(heap.next)
    ensures Parsed(heap, args, opts[..i + 1], v, rest, leaked')
    ensures opts[i].Enable? ==> opts[i].m.enabled
  {
    hide Arguments.Valid, Arguments.Repr, Arguments.TextsIn, SetOpt, Apply, TextCount;
    OptsStep(v, opts, i);
    ghost var m, r := heap.mem, args.Repr();
    ghost var lost := ParseOpt(heap, args, opts[i]);
    LeakStep(m, r, leaked, heap.mem, args.Repr(), lost);
    leaked' := leaked + lost;
  }

  lemma OptsStep(v: Values, opts: seq<Opt>, i: nat)
    requires i <= |opts|
    ensures opts[..0] == [] && Apply(v, []) == v && TextCount([]) == 0
    ensures i < |opts| ==>
              && Apply(v, opts[..i + 1]) == SetOpt(Apply(v, opts[..i]), opts[i])
              && TextCount(opts[..i + 1]) == TextCount(opts[..i]) + if opts[i].Text? then 1 else 0
  {
    if i < |opts| {
      var front, o := opts[..i], opts[i];
      assert opts[..i + 1] == front + [o] && (front + [o])[..i] == front;
    }
  }

  lemma LeakStep(m: Mem, r: set<Ptr>, leaked: set<Ptr>, m': Mem, r': set<Ptr>, lost: set<Ptr>)
    requires leaked !! r && leaked <= m.Keys && lost <= r && lost !! r' && lost <= m'.Keys
    requires m' - r' - lost == m - r
    ensures leaked + lost !! r' && leaked + lost <= m'.Keys
    ensures m' - r' - (leaked + lost) == m - r - leaked
    ensures |leaked + lost| == |leaked| + |lost|
  {
    var rest := m' - r' - lost;
    assert forall p :: p in leaked ==> p in m - r;
    assert leaked <= rest.Keys;
    assert m' - r' - (leaked + lost) == rest - leaked;
  }

  /** One option. */
  method ParseOpt(heap: Heap, args: Arguments, opt: Opt) returns (ghost lost: set<Ptr>)
    requires args.Valid(heap) && heap.reliable
    modifies heap, args, (if opt.Enable? then {opt.m} else {})
    ensures args.Valid(heap) && heap.next >= old(heap.next)
    ensures args.ValuesIn(heap) == SetOpt(old(args.ValuesIn(heap)), opt)
    ensures lost !! args.Repr() && lost <= heap.mem.Keys && lost <= old(args.Repr())
    ensures heap.mem - args.Repr() - lost == old(heap.mem - args.Repr())
    ensures |lost| + |args.TextsIn(heap)| == old(|args.TextsIn(heap)|) + if opt.Text? then 1 else 0
    ensures opt.Enable? ==> opt.m.enabled
  {
    hide Arguments.Valid, Arguments.Repr, Arguments.TextsIn;
    lost := {};
    match opt
    case Text(f, arg) => lost := AssignText(heap, args, f, arg);
    case Port(n) => args.port := n;
    case SkipValidation => args.validate := No;
    case Verbose => args.verbose := Yes;
    case Enable(m) => m.enabled := true;
  }

  method AssignText(heap: Heap, args: Arguments, f: Field, arg: CString) returns (ghost lost: set<Ptr>)
    requires args.Valid(heap) && heap.reliable
    modifies heap, args`configFile, args`keyHandle, args`host, args`secret, args`username
    ensures args.Valid(heap) && heap.next >= old(heap.next)
    ensures args.TextsIn(heap) == old(args.TextsIn(heap))[f := arg]
    ensures lost !! args.Repr() && lost <= heap.mem.Keys && lost <= old(args.Repr())
    ensures heap.mem - args.Repr() - lost == old(heap.mem - args.Repr())
    ensures |lost| == if f in old(args.TextsIn(heap)) then 1 else 0
    ensures |lost| + |args.TextsIn(heap)| == old(|args.TextsIn(heap)|) + 1
  {
    hide Sound, CStr, BlocksOf;
    BehindIsOwned(args.self, args.Strings(), heap.mem, heap.statics, f);
    LayerString(heap, args, f);
    lost := args.Assign(heap, f, arg);
  }

  // ----- The configuration file -----

  function Add(m: map<Field, CString>, f: Field, value: Option<CString>): map<Field, CString> {
    if value.Some? then m[f := value.value] else m
  }

  function FileTexts(m: map<Field, CString>, ini: Ini): map<Field, CString> {
    Add(Add(Add(Add(m, Host, ini.getString("unlocked:host")), KeyHandle, ini.getString("unlocked:key_handle")),
            Secret, ini.getString("unlocked:secret")), Username, ini.getString("unlocked:username"))
  }

  function TristateOf(b: Option<bool>): Tristate {
    match b
    case Some(true) => Yes
    case Some(false) => No
    case None => Unset
  }

  function Or<T>(a: Option<T>, b: Option<T>): Option<T> {
    if a.Some? then a else b
  }

  /** The values after the file: port and validation are written even when the file does not mention them. */
  function FileOver(v: Values, ini: Ini): Values {
    Values(FileTexts(v.strings, ini), ini.getLong("unlocked:port"), TristateOf(ini.getBoolean("unlocked:validate")),
           v.verbose)
  }

  method AssignFrom(heap: Heap, args: Arguments, f: Field, value: Option<CString>, ghost leaked: set<Ptr>)
    returns (ghost leaked': set<Ptr>)
    requires args.Valid(heap) && heap.reliable && leaked !! args.Repr() && leaked <= heap.mem.Keys
    modifies heap, args`configFile, args`keyHandle, args`host, args`secret, args`username
    ensures args.Valid(heap) && heap.next >= old(heap.next)
    ensures args.TextsIn(heap) == Add(old(args.TextsIn(heap)), f, value)
    ensures leaked' !! args.Repr() && leaked' <= heap.mem.Keys
    ensures heap.mem - args.Repr() - leaked' == old(heap.mem - args.Repr()) - leaked
    ensures f !in old(args.TextsIn(heap)) ==> leaked' == leaked
  {
    hide Arguments.Valid, Arguments.Repr, Arguments.TextsIn;
    leaked' := leaked;
    if value.Some? {
      ghost var m, r := heap.mem, args.Repr();
      ghost var lost := AssignText(heap, args, f, value.value);
      LeakStep(m, r, leaked, heap.mem, args.Repr(), lost);
      leaked' := leaked + lost;
    }
  }

  /** The part of `parse_config_file` that fills the structure. */
  method ReadFields(heap: Heap, ini: Ini, args: Arguments) returns (ghost leaked: set<Ptr>)
    requires args.Valid(heap) && heap.reliable
    modifies heap, args
    ensures args.Valid(heap) && heap.next >= old(heap.next)
    ensures args.ValuesIn(heap) == FileOver(old(args.ValuesIn(heap)), ini)
    ensures args.Held(heap) == old(args.Held(heap)).(
                                 keyHandle := Or(ini.getString("unlocked:key_handle"), old(args.Held(heap)).keyHandle),
                                 host := Or(ini.getString("unlocked:host"), old(args.Held(heap)).host),
                                 port := ini.getLong("unlocked:port"),
                                 secret := Or(ini.getString("unlocked:secret"), old(args.Held(heap)).secret),
                                 username := Or(ini.getString("unlocked:username"), old(args.Held(heap)).username),
                                 validate := TristateOf(ini.getBoolean("unlocked:validate")))
    ensures leaked !! args.Repr() && leaked <= heap.mem.Keys
    ensures heap.mem - args.Repr() - leaked == old(heap.mem - args.Repr())
    ensures old(args.TextsIn(heap)) == map[] ==> leaked == {}
  {
    hide Arguments.Valid, Arguments.Repr, Arguments.TextsIn, Arguments.Held, FileTexts, TristateOf;
    args.HeldExact(heap);
    FileOverExact(args.ValuesIn(heap), ini);
    leaked := ReadStrings(heap, ini, args);
    args.port := ini.getLong("unlocked:port");
    args.validate := ReadValidate(ini);
    args.HeldExact(heap);
  }

  lemma FileOverExact(v: Values, ini: Ini)
    ensures var s := SettingsOf(v);
            SettingsOf(FileOver(v, ini))
            == s.(keyHandle := Or(ini.getString("unlocked:key_handle"), s.keyHandle),
                  host := Or(ini.getString("unlocked:host"), s.host),
                  port := ini.getLong("unlocked:port"),
                  secret := Or(ini.getString("unlocked:secret"), s.secret),
                  username := Or(ini.getString("unlocked:username"), s.username),
                  validate := TristateOf(ini.getBoolean("unlocked:validate")))
  {
  }

  method ReadValidate(ini: Ini) returns (validate: Tristate)
    ensures validate == TristateOf(ini.getBoolean("unlocked:validate"))
  {
    match ini.getBoolean("unlocked:validate")
    case Some(true) => validate := Yes;
    case Some(false) => validate := No;
    case None => validate := Unset;
  }

  /** The four strings; the port, which the code reads in between, is independent of them. */
  method ReadStrings(heap: Heap, ini: Ini, args: Arguments) returns (ghost leaked: set<Ptr>)
    requires args.Valid(heap) && heap.reliable
    modifies heap, args`configFile, args`keyHandle, args`host, args`secret, args`username
    ensures args.Valid(heap) && heap.next >= old(heap.next)
    ensures args.TextsIn(heap) == FileTexts(old(args.TextsIn(heap)), ini)
    ensures leaked !! args.Repr() && leaked <= heap.mem.Keys
    ensures heap.mem - args.Repr() - leaked == old(heap.mem - args.Repr())
    ensures old(args.TextsIn(heap)) == map[] ==> leaked == {}
  {
    hide Arguments.Valid, Arguments.Repr, Arguments.TextsIn;
    assert heap.mem - args.Repr() - {} == heap.mem - args.Repr();
    leaked := AssignTwo(heap, args, Host, ini.getString("unlocked:host"), KeyHandle,
                        ini.getString("unlocked:key_handle"), {});
    leaked := AssignTwo(heap, args, Secret, ini.getString("unlocked:secret"), Username,
                        ini.getString("unlocked:username"), leaked);
  }

  method AssignTwo(heap: Heap, args: Arguments, f: Field, value: Option<CString>, g: Field, value': Option<CString>,
                   ghost leaked: set<Ptr>) returns (ghost leaked': set<Ptr>)
    requires args.Valid(heap) && heap.reliable && leaked !! args.Repr() && leaked <= heap.mem.Keys && f != g
    modifies heap, args`configFile, args`keyHandle, args`host, args`secret, args`username
    ensures args.Valid(heap) && heap.next >= old(heap.next)
    ensures args.TextsIn(heap) == Add(Add(old(args.TextsIn(heap)), f, value), g, value')
    ensures leaked' !! args.Repr() && leaked' <= heap.mem.Keys
    ensures heap.mem - args.Repr() - leaked' == old(heap.mem - args.Repr()) - leaked
    ensures f !in old(args.TextsIn(heap)) && g !in old(args.TextsIn(heap)) ==> leaked' == leaked
  {
    hide Arguments.Valid, Arguments.Repr, Arguments.TextsIn;
    leaked' := AssignFrom(heap, args, f, value, leaked);
    ghost var m := heap.mem - args.Repr();
    leaked' := AssignFrom(heap, args, g, value', leaked');
  }

  /** `parse_config_file`; a file that cannot be loaded is None. */
  method ParseConfigFile(heap: Heap, file: Option<Ini>, args: Arguments, registry: ModuleRegistry)
    returns (err: Err, ghost leaked: set<Ptr>)
    requires args.Valid(heap) && heap.reliable && registry.Valid()
    modifies heap, args, registry.journal, registry.Modules()
    ensures args.Valid(heap) && heap.next >= old(heap.next)
    ensures registry.Valid() && registry.Modules() == old(registry.Modules())
    ensures leaked !! args.Repr() && leaked <= heap.mem.Keys
    ensures heap.mem - args.Repr() - leaked == old(heap.mem - args.Repr())
    ensures old(args.TextsIn(heap)) == map[] ==> leaked == {}
    ensures file.None? ==> err == UL_ERR && args.ValuesIn(heap) == old(args.ValuesIn(heap))
    ensures file.Some? ==>
              && err == Result(ConfigSlots(registry.Modules(), file.value))
              && args.ValuesIn(heap) == FileOver(old(args.ValuesIn(heap)), file.value)
    ensures file.Some? && err == UL_OK ==>
              forall m :: m in registry.Modules() ==> m.enabled == m.EnabledBy(file.value, old(m.enabled))
  {
    hide Arguments.Valid, Arguments.Repr, Arguments.TextsIn, Arguments.Held, ConfigSlots, FileOver, FileRead, Reached,
         Calls, TristateOf;
    if file.None? {
      leaked := {};
      return UL_ERR, leaked;
    }
    leaked := ReadFields(heap, file.value, args);
    err := registry.ParseConfig(file.value);
    ghost var ms := registry.Modules();
    assert err == UL_OK ==> ms[..Rounds(ConfigSlots(ms, file.value))] == ms;
  }

  // ----- All layers -----

  /** The file that the command line names, if it names one and it can be loaded. */
  function FileLayer(files: CString -> Option<Ini>, cli: Values): Values {
    if ConfigFile in cli.strings && files(cli.strings[ConfigFile]).Some?
    then FileOver(UNSET, files(cli.strings[ConfigFile]).value) else UNSET
  }

  /** What `handle_args` returns: the file must load, and the modules must accept it. */
  function ArgsResult(files: CString -> Option<Ini>, cli: Values, ms: seq<UnlockedModule>): Err {
    if ConfigFile !in cli.strings then UL_OK
    else if files(cli.strings[ConfigFile]).None? then UL_ERR
    else Result(ConfigSlots(ms, files(cli.strings[ConfigFile]).value))
  }

  // ----- What the layers mean -----

  function InFile(file: Option<Ini>, key: string): Option<CString> {
    if file.Some? then file.value.getString(key) else None
  }

  function PortOr(a: int, b: int): int {
    if a != 0 then a else b
  }

  /** The configuration file that the options name, if they name one and it can be loaded. */
  function FileNamed(files: CString -> Option<Ini>, opts: seq<Opt>): Option<Ini> {
    if LastText(opts, ConfigFile).Some? then files(LastText(opts, ConfigFile).value) else None
  }

  /** Where each setting comes from: the options, else the file, else what was given. */
  function Layered(given: Settings, file: Option<Ini>, opts: seq<Opt>): Settings {
    Settings(
      Or(LastText(opts, ConfigFile), given.configFile),
      Or(LastText(opts, KeyHandle), Or(InFile(file, "unlocked:key_handle"), given.keyHandle)),
      Or(LastText(opts, Host), Or(InFile(file, "unlocked:host"), given.host)),
      PortOr(LastPort(opts), PortOr(if file.Some? then file.value.getLong("unlocked:port") else 0, given.port)),
      Or(LastText(opts, Secret), Or(InFile(file, "unlocked:secret"), given.secret)),
      Or(LastText(opts, Username), Or(InFile(file, "unlocked:username"), given.username)),
      if SkipValidation in opts then No
      else if file.Some? && file.value.getBoolean("unlocked:validate") == Some(true) then Yes
      else if file.Some? && file.value.getBoolean("unlocked:validate") == Some(false) then No
      else given.validate,
      if Verbose in opts then Yes else given.verbose)
  }

  lemma LayersExact(given: Values, files: CString -> Option<Ini>, opts: seq<Opt>)
    ensures SettingsOf(MergeAll([given, FileLayer(files, Apply(UNSET, opts)), Apply(UNSET, opts)]))
         == Layered(SettingsOf(given), FileNamed(files, opts), opts)
  {
    OptionsExact(opts);
    var cli := Apply(UNSET, opts);
    var file := FileLayer(files, cli);
    FileLayerExact(files, opts);
    ThreeLayers(given, file, cli);
    hide Apply, FileLayer, MergeAll, LastText, LastPort;
    MergedSettings(given, file);
    MergedSettings(Merge(given, file), cli);
  }

  function OverSettings(a: Settings, b: Settings): Settings {
    Settings(Or(b.configFile, a.configFile), Or(b.keyHandle, a.keyHandle), Or(b.host, a.host), PortOr(b.port, a.port),
             Or(b.secret, a.secret), Or(b.username, a.username), if b.validate != Unset then b.validate else a.validate,
             if b.verbose != Unset then b.verbose else a.verbose)
  }

  lemma MergedSettings(a: Values, b: Values)
    ensures SettingsOf(Merge(a, b)) == OverSettings(SettingsOf(a), SettingsOf(b))
  {
  }

  /** What the file contributes, by the names of its entries. */
  lemma FileLayerExact(files: CString -> Option<Ini>, opts: seq<Opt>)
    ensures var file := FileNamed(files, opts);
            SettingsOf(FileLayer(files, Apply(UNSET, opts)))
            == Settings(None, InFile(file, "unlocked:key_handle"), InFile(file, "unlocked:host"),
                        if file.Some? then file.value.getLong("unlocked:port") else 0,
                        InFile(file, "unlocked:secret"), InFile(file, "unlocked:username"),
                        if file.Some? && file.value.getBoolean("unlocked:validate") == Some(true) then Yes
                        else if file.Some? && file.value.getBoolean("unlocked:validate") == Some(false) then No
                        else Unset, Unset)
  {
    OptionsExact(opts);
    hide Apply, LastText;
    assert Get(Apply(UNSET, opts).strings, ConfigFile) == LastText(opts, ConfigFile);
  }

  /**
   `handle_args`: given values, then the file, then the command line. Apart from the copies that repeated options
   lose, nothing is left on the heap but the strings of `args`; when it fails, `args` is as it was, and the two
   temporary structures are lost with all they have read. A module that the command line enables is enabled in the end
   if and only if the file does not switch it off: argp runs before the file is read.
   */
  method HandleArgs(heap: Heap, files: CString -> Option<Ini>, registry: ModuleRegistry, opts: seq<Opt>,
                    args: Arguments) returns (err: Err, ghost leaked: set<Ptr>)
    requires args.Valid(heap) && heap.reliable && registry.Valid()
    modifies heap, args, registry.journal, registry.Modules(), Enabled(opts)
    ensures args.Valid(heap)
    ensures LastText(opts, ConfigFile).None? ==> err == UL_OK
    ensures LastText(opts, ConfigFile).Some? && FileNamed(files, opts).None? ==> err == UL_ERR
    ensures FileNamed(files, opts).Some? ==>
              var ini := FileNamed(files, opts).value;
              FileRead(registry.Modules(), ini, Calls(ConfigSlots(registry.Modules(), ini), ParseConfig), err)
    ensures args.Held(heap)
         == if err == UL_OK then Layered(old(args.Held(heap)), FileNamed(files, opts), opts) else old(args.Held(heap))
    ensures err == UL_OK ==>
              forall m :: m in registry.Modules() ==>
                m.enabled == if FileNamed(files, opts).Some? && m.parseConfig.Some?
                                && m.parseConfig.value(FileNamed(files, opts).value).0.Some?
                             then m.parseConfig.value(FileNamed(files, opts).value).0.value
                             else old(m.enabled) || Enable(m) in opts
    ensures err != UL_OK ==> args.Repr() == old(args.Repr())
    ensures leaked !! args.Repr() && leaked <= heap.mem.Keys
    ensures heap.mem - args.Repr() - leaked == old(heap.mem - args.Repr())
    ensures |leaked| == if err == UL_OK then TextCount(opts) - |Apply(UNSET, opts).strings|
                        else TextCount(opts) + 2 + |FileLayer(files, Apply(UNSET, opts)).strings|
  {
    hide Arguments.Valid, Arguments.Repr, Arguments.Held, Arguments.TextsIn, FileLayer, ArgsResult, Settled, Apply,
         MergeAll, Layered, TextCount, FileRead, SettingsOf, Active, Enabled;
    ghost var given, held, ms := args.ValuesIn(heap), args.Held(heap), registry.Modules();
    args.HeldExact(heap);
    ResultExact(files, opts, ms);
    LayersExact(given, files, opts);
    err, leaked := LayerArgs(heap, files, registry, opts, args);
    args.HeldExact(heap);
    if err == UL_OK {
      FlagsExact(files, opts, ms, old(Active(registry.Modules())));
      ActiveExact(ms);
    }
  }

  twostate lemma ActiveExact(ms: seq<UnlockedModule>)
    ensures forall m :: m in ms ==> (m in old(Active(ms)) <==> old(m.enabled))
  {
  }

  lemma ResultExact(files: CString -> Option<Ini>, opts: seq<Opt>, ms: seq<UnlockedModule>)
    ensures var err := ArgsResult(files, Apply(UNSET, opts), ms);
            && (LastText(opts, ConfigFile).None? ==> err == UL_OK)
            && (LastText(opts, ConfigFile).Some? && FileNamed(files, opts).None? ==> err == UL_ERR)
            && (FileNamed(files, opts).Some? ==>
                  var ini := FileNamed(files, opts).value;
                  FileRead(ms, ini, Calls(ConfigSlots(ms, ini), ParseConfig), err))
  {
    OptionsExact(opts);
    hide Apply, LastText, FileRead, ConfigSlots, Calls, Result;
    assert Get(Apply(UNSET, opts).strings, ConfigFile) == LastText(opts, ConfigFile);
    if FileNamed(files, opts).Some? {
      FileReadExact(ms, FileNamed(files, opts).value);
    }
  }

  lemma FlagsExact(files: CString -> Option<Ini>, opts: seq<Opt>, ms: seq<UnlockedModule>, active: set<UnlockedModule>)
    requires Settled(files, Apply(UNSET, opts), ms, active + Enabled(opts))
    ensures forall m :: m in ms ==>
              m.enabled == if FileNamed(files, opts).Some? && m.parseConfig.Some?
                              && m.parseConfig.value(FileNamed(files, opts).value).0.Some?
                           then m.parseConfig.value(FileNamed(files, opts).value).0.value
                           else m in active || Enable(m) in opts
  {
    OptionsExact(opts);
    hide Apply, LastText;
    assert Get(Apply(UNSET, opts).strings, ConfigFile) == LastText(opts, ConfigFile);
    assert forall m :: m in Enabled(opts) <==> Enable(m) in opts;
  }

  /** The same, over the values of the layers. */
  method LayerArgs(heap: Heap, files: CString -> Option<Ini>, registry: ModuleRegistry, opts: seq<Opt>,
                    args: Arguments) returns (err: Err, ghost leaked: set<Ptr>)
    requires args.Valid(heap) && heap.reliable && registry.Valid()
    modifies heap, args, registry.journal, registry.Modules(), Enabled(opts)
    ensures args.Valid(heap)
    ensures err == ArgsResult(files, Apply(UNSET, opts), registry.Modules())
    ensures err == UL_OK ==>
              args.ValuesIn(heap)
              == MergeAll([old(args.ValuesIn(heap)), FileLayer(files, Apply(UNSET, opts)), Apply(UNSET, opts)])
    ensures err != UL_OK ==> args.ValuesIn(heap) == old(args.ValuesIn(heap)) && args.Repr() == old(args.Repr())
    ensures leaked !! args.Repr() && leaked <= heap.mem.Keys
    ensures heap.mem - args.Repr() - leaked == old(heap.mem - args.Repr())
    ensures |leaked| == if err == UL_OK then TextCount(opts) - |Apply(UNSET, opts).strings|
                        else TextCount(opts) + 2 + |FileLayer(files, Apply(UNSET, opts)).strings|
    ensures err == UL_OK ==> Settled(files, Apply(UNSET, opts), registry.Modules(),
                                     old(Active(registry.Modules())) + Enabled(opts))
  {
    hide Arguments.Valid, Arguments.Repr, Arguments.TextsIn, FileLayer, ArgsResult, Settled, Apply, MergeAll, Merge,
         Active, Enabled, TextCount;
    var cliArgs, configArgs;
    ghost var m, r, ms := heap.mem, args.Repr(), registry.Modules();
    err, cliArgs, configArgs, leaked := ReadBeside(heap, files, registry, opts, args);
    assert registry.Modules() == ms;
    if err != UL_OK {
      RestOfFailure(heap, cliArgs, configArgs, m, r, leaked);
      leaked := leaked + cliArgs.Repr() + configArgs.Repr();
    } else {
      ThreeLayers(args.ValuesIn(heap), configArgs.ValuesIn(heap), cliArgs.ValuesIn(heap));
      MergeLayers(heap, args, cliArgs, configArgs, m, leaked);
    }
    assert registry.Modules() == ms;
  }

  /** The layers are read beside the arguments, which stay as they are. */
  method ReadBeside(heap: Heap, files: CString -> Option<Ini>, registry: ModuleRegistry, opts: seq<Opt>,
                    args: Arguments)
    returns (err: Err, cliArgs: Arguments, configArgs: Arguments, ghost leaked: set<Ptr>)
    requires args.Valid(heap) && heap.reliable && registry.Valid()
    modifies heap, registry.journal, registry.Modules(), Enabled(opts)
    ensures fresh(cliArgs) && fresh(configArgs) && cliArgs != configArgs
    ensures args.Valid(heap) && cliArgs.Valid(heap) && configArgs.Valid(heap)
    ensures args.Repr() !! cliArgs.Repr() !! configArgs.Repr()
    ensures args.ValuesIn(heap) == old(args.ValuesIn(heap)) && args.Repr() <= old(heap.mem.Keys)
    ensures cliArgs.ValuesIn(heap) == Apply(UNSET, opts)
    ensures configArgs.ValuesIn(heap) == FileLayer(files, Apply(UNSET, opts))
    ensures err == ArgsResult(files, Apply(UNSET, opts), registry.Modules())
    ensures err == UL_OK ==> Settled(files, Apply(UNSET, opts), registry.Modules(),
                                     old(Active(registry.Modules())) + Enabled(opts))
    ensures |leaked| == TextCount(opts) - |Apply(UNSET, opts).strings|
    ensures leaked !! cliArgs.Repr() && leaked !! configArgs.Repr() && leaked !! args.Repr() && leaked <= heap.mem.Keys
    ensures heap.mem - (cliArgs.Repr() + configArgs.Repr()) - leaked == old(heap.mem)
  {
    hide Arguments.Strings, Sound, Texts, BlocksOf, FileLayer, ArgsResult, Settled, Apply, Active, Enabled, TextCount;
    ghost var m, r, ptrs := heap.mem, args.Repr(), args.Strings();
    err, cliArgs, configArgs, leaked := ReadLayers(heap, files, registry, opts);
    assert m - {} == m;
    BehindIsOwned(args.self, ptrs, m, heap.statics, Host);
    Bystander(args.self, ptrs, m, {}, heap.mem, cliArgs.Repr() + configArgs.Repr(), leaked, heap.statics);
  }

  /** The two structures are lost as they are. */
  lemma RestOfFailure(heap: Heap, cliArgs: Arguments, configArgs: Arguments, m: Mem, r: set<Ptr>, leaked: set<Ptr>)
    requires cliArgs.Valid(heap) && configArgs.Valid(heap) && cliArgs.Repr() !! configArgs.Repr()
    requires heap.mem - (cliArgs.Repr() + configArgs.Repr()) - leaked == m && r <= m.Keys && leaked <= heap.mem.Keys
    requires leaked !! cliArgs.Repr() && leaked !! configArgs.Repr()
    ensures var all := leaked + cliArgs.Repr() + configArgs.Repr();
            && |all| == |leaked| + 2 + |cliArgs.TextsIn(heap)| + |configArgs.TextsIn(heap)|
            && all !! r && all <= heap.mem.Keys && heap.mem - r - all == m - r
  {
    hide Sound, Texts, BlocksOf, Arguments.Strings;
    var mid := heap.mem;
    BehindIsOwned(cliArgs.self, cliArgs.Strings(), mid, heap.statics, Host);
    BehindIsOwned(configArgs.self, configArgs.Strings(), mid, heap.statics, Host);
    BlocksCount(cliArgs.self, cliArgs.Strings(), mid, heap.statics);
    BlocksCount(configArgs.self, configArgs.Strings(), mid, heap.statics);
    RestWithout(m, r, mid, cliArgs.Repr(), configArgs.Repr(), leaked);
  }

  lemma RestWithout(m: Mem, r: set<Ptr>, mid: Mem, c: set<Ptr>, f: set<Ptr>, leaked: set<Ptr>)
    requires mid - (c + f) - leaked == m && r <= m.Keys && leaked <= mid.Keys && c <= mid.Keys && f <= mid.Keys
    requires leaked !! c && leaked !! f && c !! f
    ensures |leaked + c + f| == |leaked| + |c| + |f|
    ensures leaked + c + f !! r && leaked + c + f <= mid.Keys && mid - r - (leaked + c + f) == m - r
  {
    assert mid - r - (leaked + c + f) == (mid - (c + f) - leaked) - r;
    assert forall p :: p in r ==> p in m;
  }

  /** The first half of `handle_args`: two new structures, one filled from the options, one from the file. */
  method ReadLayers(heap: Heap, files: CString -> Option<Ini>, registry: ModuleRegistry, opts: seq<Opt>)
    returns (err: Err, cliArgs: Arguments, configArgs: Arguments, ghost leaked: set<Ptr>)
    requires heap.Valid() && heap.reliable && registry.Valid()
    modifies heap, registry.journal, registry.Modules(), Enabled(opts)
    ensures fresh(cliArgs) && fresh(configArgs) && cliArgs != configArgs
    ensures cliArgs.Valid(heap) && configArgs.Valid(heap) && cliArgs.Repr() !! configArgs.Repr()
    ensures registry.Valid() && registry.Modules() == old(registry.Modules())
    ensures cliArgs.ValuesIn(heap) == Apply(UNSET, opts)
    ensures err == ArgsResult(files, Apply(UNSET, opts), registry.Modules())
    ensures configArgs.ValuesIn(heap) == FileLayer(files, Apply(UNSET, opts))
    ensures err == UL_OK ==> Settled(files, Apply(UNSET, opts), registry.Modules(),
                                     old(Active(registry.Modules())) + Enabled(opts))
    ensures |leaked| == TextCount(opts) - |Apply(UNSET, opts).strings|
    ensures leaked !! cliArgs.Repr() && leaked !! configArgs.Repr() && leaked <= heap.mem.Keys
    ensures heap.mem - (cliArgs.Repr() + configArgs.Repr()) - leaked == old(heap.mem)
  {
    hide Arguments.Strings, Sound, Texts, BlocksOf, ConfigSlots, FileLayer, ArgsResult, Settled, Apply;
    cliArgs, configArgs, leaked := NewLayers(heap, opts);
    ghost var m, f, ms, active := heap.mem, configArgs.Repr(), registry.Modules(), Active(registry.Modules());
    assert forall m :: m in ms ==> (m in active <==> m in old(Active(ms)) + Enabled(opts));
    err := ReadFile(heap, files, cliArgs, configArgs, registry);
    SettledFrom(files, Apply(UNSET, opts), ms, active, old(Active(ms)) + Enabled(opts), err == UL_OK);
    RestOfLayers(m, f, cliArgs.Repr(), leaked, heap.mem, configArgs.Repr());
  }

  /** `create_args` twice, and `argp_parse`. */
  method NewLayers(heap: Heap, opts: seq<Opt>)
    returns (cliArgs: Arguments, configArgs: Arguments, ghost leaked: set<Ptr>)
    requires heap.Valid() && heap.reliable
    modifies heap, Enabled(opts)
    ensures fresh(cliArgs) && fresh(configArgs) && cliArgs != configArgs
    ensures cliArgs.Valid(heap) && configArgs.Valid(heap) && cliArgs.Repr() !! configArgs.Repr()
    ensures cliArgs.ValuesIn(heap) == Apply(UNSET, opts) && configArgs.ValuesIn(heap) == UNSET
    ensures |leaked| == TextCount(opts) - |Apply(UNSET, opts).strings|
    ensures leaked !! cliArgs.Repr() && leaked !! configArgs.Repr() && leaked <= heap.mem.Keys
    ensures heap.mem - (cliArgs.Repr() + configArgs.Repr()) - leaked == old(heap.mem)
    ensures forall m :: m in Enabled(opts) ==> m.enabled
  {
    hide Arguments.Strings, Sound, Texts, BlocksOf, Apply, TextCount;
    cliArgs, configArgs := CreateBoth(heap);
    ghost var m, c, f := heap.mem, cliArgs.Repr(), configArgs.Repr();
    leaked := ParseOpts(heap, cliArgs, opts);
    Bystander(configArgs.self, configArgs.Strings(), m, c, heap.mem, cliArgs.Repr(), leaked, heap.statics);
    RestOfNew(old(heap.mem), m, c, f, heap.mem, cliArgs.Repr(), leaked);
  }

  method CreateBoth(heap: Heap) returns (cliArgs: Arguments, configArgs: Arguments)
    requires heap.Valid() && heap.reliable
    modifies heap
    ensures fresh(cliArgs) && fresh(configArgs) && cliArgs != configArgs
    ensures cliArgs.Valid(heap) && configArgs.Valid(heap) && cliArgs.Repr() !! configArgs.Repr()
    ensures cliArgs.ValuesIn(heap) == UNSET && configArgs.ValuesIn(heap) == UNSET
    ensures heap.mem - cliArgs.Repr() - configArgs.Repr() == old(heap.mem)
  {
    hide Arguments.Strings, Sound, Texts, BlocksOf;
    cliArgs := new Arguments(heap);
    ghost var m := heap.mem;
    configArgs := new Arguments(heap);
    assert m - {} == m && heap.mem - configArgs.Repr() - {} == heap.mem - configArgs.Repr();
    Bystander(cliArgs.self, cliArgs.Strings(), m, {}, heap.mem, configArgs.Repr(), {}, heap.statics);
    assert heap.mem - cliArgs.Repr() - configArgs.Repr() == heap.mem - configArgs.Repr() - cliArgs.Repr();
  }

  lemma RestOfNew(m0: Mem, m: Mem, c: set<Ptr>, f: set<Ptr>, m': Mem, c': set<Ptr>, leaked: set<Ptr>)
    requires m - c - f == m0 && m' - c' - leaked == m - c
    ensures m' - (c' + f) - leaked == m0
  {
    assert m' - (c' + f) - leaked == (m' - c' - leaked) - f;
  }

  lemma RestOfLayers(m: Mem, f: set<Ptr>, c: set<Ptr>, leaked: set<Ptr>, m': Mem, f': set<Ptr>)
    requires m' - f' == m - f && leaked !! f && leaked <= m.Keys
    ensures m' - (c + f') - leaked == m - (c + f) - leaked && leaked !! f' && leaked <= m'.Keys
  {
    assert forall p :: p in leaked ==> p in m - f;
    assert m' - (c + f') - leaked == (m' - f') - c - leaked;
    assert m - (c + f) - leaked == (m - f) - c - leaked;
  }

  lemma SettledFrom(files: CString -> Option<Ini>, cli: Values, ms: seq<UnlockedModule>, active: set<UnlockedModule>,
                    active': set<UnlockedModule>, ok: bool)
    requires ok ==> Settled(files, cli, ms, active)
    requires forall m :: m in ms ==> (m in active <==> m in active')
    ensures ok ==> Settled(files, cli, ms, active')
  {
  }

  /** The enabled modules. */
  ghost function Active(ms: seq<UnlockedModule>): set<UnlockedModule>
    reads ms
  {
    set m | m in ms && m.enabled
  }

  /** Every module's flag is what the file makes of it, starting from the modules in `active`. */
  ghost predicate Settled(files: CString -> Option<Ini>, cli: Values, ms: seq<UnlockedModule>,
                          active: set<UnlockedModule>)
    reads ms
  {
    forall m :: m in ms ==>
      m.enabled == if ConfigFile in cli.strings && files(cli.strings[ConfigFile]).Some? && m.parseConfig.Some?
                      && m.parseConfig.value(files(cli.strings[ConfigFile]).value).0.Some?
                   then m.parseConfig.value(files(cli.strings[ConfigFile]).value).0.value else m in active
  }

  /** How mod_stdout reads the file: its flag follows `use_stdout`, if that is given. */
  function ReadStdout(ini: Ini): (Option<bool>, Err) {
    (ini.getBoolean("stdout:use_stdout"), UL_OK)
  }

  /** The options `--config c --stdout`, with `use_stdout = 0` in the file: the module that was asked for is off. */
  method FlagOverridden(heap: Heap) returns (err: Err, stdout: UnlockedModule)
    requires heap.Valid() && heap.reliable
    modifies heap
    ensures err == UL_OK && fresh(stdout) && !stdout.enabled
  {
    hide Arguments.Valid, Arguments.Repr, Arguments.Held, FileLayer, Layered, Apply, Enabled, TextCount, ConfigSlots,
         Calls, LastText;
    var registry;
    registry, stdout := StdoutOnly();
    var args := new Arguments(heap);
    var ini := Ini(key => None, key => 0, key => if key == "stdout:use_stdout" then Some(false) else None);
    var opts := [Text(ConfigFile, "c"), Enable(stdout)];
    FlagGiven(opts, stdout);
    ghost var lost;
    err, lost := HandleArgs(heap, path => Some(ini), registry, opts, args);
  }

  method StdoutOnly() returns (registry: ModuleRegistry, stdout: UnlockedModule)
    ensures fresh(registry) && fresh(registry.journal) && registry.Valid()
    ensures fresh(stdout) && stdout.parseConfig == Some(ReadStdout) && registry.Modules() == [stdout]
  {
    stdout := new UnlockedModule(Some(0), Some(ReadStdout), None, Some(key => UL_OK), None, None);
    var childParsers := new ChildParsers();
    var journal := new Journal();
    registry := new ModuleRegistry(childParsers, journal);
    registry.RegisterModule(stdout);
  }

  lemma FlagGiven(opts: seq<Opt>, m: UnlockedModule)
    requires opts == [Text(ConfigFile, "c"), Enable(m)]
    ensures Enabled(opts) == {m} && LastText(opts, ConfigFile) == Some("c")
  {
    assert opts[1] in opts;
    assert opts[..1] == [Text(ConfigFile, "c")];
  }

  /** The `if (cli_args->config_file)` of `handle_args`. */
  method ReadFile(heap: Heap, files: CString -> Option<Ini>, cliArgs: Arguments, configArgs: Arguments,
                  registry: ModuleRegistry) returns (err: Err)
    requires heap.reliable && registry.Valid() && cliArgs != configArgs
    requires cliArgs.Valid(heap) && configArgs.Valid(heap) && cliArgs.Repr() !! configArgs.Repr()
    requires configArgs.ValuesIn(heap) == UNSET
    modifies heap, configArgs, registry.journal, registry.Modules()
    ensures cliArgs.Valid(heap) && configArgs.Valid(heap) && cliArgs.Repr() !! configArgs.Repr()
    ensures registry.Valid() && registry.Modules() == old(registry.Modules())
    ensures cliArgs.ValuesIn(heap) == old(cliArgs.ValuesIn(heap))
    ensures err == ArgsResult(files, cliArgs.ValuesIn(heap), registry.Modules())
    ensures configArgs.ValuesIn(heap) == FileLayer(files, cliArgs.ValuesIn(heap))
    ensures err == UL_OK ==> Settled(files, cliArgs.ValuesIn(heap), registry.Modules(), old(Active(registry.Modules())))
    ensures heap.mem - configArgs.Repr() == old(heap.mem - configArgs.Repr())
  {
    hide Arguments.Strings, Sound, Texts, BlocksOf, ConfigSlots, FileOver;
    LayerString(heap, cliArgs, ConfigFile);
    if cliArgs.configFile == NULL {
      return UL_OK;
    }
    ghost var m, r, lost := heap.mem, configArgs.Repr(), {};
    err, lost := ParseConfigFile(heap, files(StringAt(heap.mem, cliArgs.configFile)), configArgs, registry);
    Bystander(cliArgs.self, cliArgs.Strings(), m, r, heap.mem, configArgs.Repr(), lost, heap.statics);
    assert heap.mem - configArgs.Repr() - lost == heap.mem - configArgs.Repr();
  }

  /**
   The second half: merge file and command line into the given values, releasing both. `m` is the heap without the two
   layers and without the copies lost so far.
   */
  method MergeLayers(heap: Heap, args: Arguments, cliArgs: Arguments, configArgs: Arguments, ghost m: Mem,
                     ghost leaked: set<Ptr>)
    requires args != cliArgs && args != configArgs && cliArgs != configArgs && heap.reliable
    requires args.Valid(heap) && cliArgs.Valid(heap) && configArgs.Valid(heap)
    requires args.Repr() !! cliArgs.Repr() !! configArgs.Repr()
    requires heap.mem - (cliArgs.Repr() + configArgs.Repr()) - leaked == m && args.Repr() <= m.Keys
    requires leaked !! cliArgs.Repr() && leaked !! configArgs.Repr() && leaked !! args.Repr() && leaked <= heap.mem.Keys
    modifies heap, args
    ensures args.Valid(heap)
    ensures args.ValuesIn(heap)
         == Merge(Merge(old(args.ValuesIn(heap)), old(configArgs.ValuesIn(heap))), old(cliArgs.ValuesIn(heap)))
    ensures leaked !! args.Repr() && leaked <= heap.mem.Keys
    ensures heap.mem - args.Repr() - leaked == m - old(args.Repr())
  {
    hide Arguments.Strings, Sound, Texts, BlocksOf, Merge;
    ghost var statics, cliRepr, configRepr := heap.statics, cliArgs.Repr(), configArgs.Repr();
    ghost var m0, r0 := heap.mem, args.Repr();
    MergeConfig(heap, args, configArgs);
    ghost var m1 := heap.mem;
    Bystander(cliArgs.self, cliArgs.Strings(), m0, r0, m1, args.Repr(), {}, statics);
    configArgs.Free(heap);
    ghost var m2, r2 := heap.mem, args.Repr();
    Released(args.self, args.Strings(), m1, statics, configRepr);
    Released(cliArgs.self, cliArgs.Strings(), m1, statics, configRepr);
    MergeConfig(heap, args, cliArgs);
    ghost var m3 := heap.mem;
    cliArgs.Free(heap);
    Released(args.self, args.Strings(), m3, statics, cliRepr);
    RestOfMerge(m0, r0, m1, r2, m3, args.Repr(), cliRepr, configRepr);
    RestOfArgs(m, r0, m0, cliRepr, configRepr, leaked, heap.mem, args.Repr());
  }

  lemma RestOfMerge(m0: Mem, r0: set<Ptr>, m1: Mem, r1: set<Ptr>, m3: Mem, r3: set<Ptr>, c: set<Ptr>, f: set<Ptr>)
    requires m1 - r1 == m0 - r0 && m3 - r3 == (m1 - f) - r1
    ensures (m3 - c) - r3 == m0 - r0 - c - f
  {
    assert (m3 - c) - r3 == (m3 - r3) - c;
    assert (m1 - f) - r1 == (m1 - r1) - f;
    assert m0 - r0 - f - c == m0 - r0 - c - f;
  }

  lemma RestOfArgs(m: Mem, r: set<Ptr>, mid: Mem, c: set<Ptr>, f: set<Ptr>, leaked: set<Ptr>, m': Mem, r': set<Ptr>)
    requires mid - (c + f) - leaked == m && r <= m.Keys
    requires leaked !! c && leaked !! f && leaked !! r && leaked <= mid.Keys
    requires m' - r' == mid - r - c - f
    ensures leaked !! r' && leaked <= m'.Keys && m' - r' - leaked == m - r
  {
    assert forall p :: p in leaked ==> p in mid - r - c - f;
    assert mid - r - c - f - leaked == (mid - (c + f) - leaked) - r;
  }

  lemma ThreeLayers(a: Values, b: Values, c: Values)
    ensures MergeAll([a, b, c]) == Merge(Merge(a, b), c)
  {
    MergeMonoid(a, a, a);
    assert [a, b, c][..2] == [a, b] && [a, b][..1] == [a];
    assert MergeAll([a]) == Merge(UNSET, a);
  }

  /** A structure that is not involved keeps its strings, whoever else changes theirs. */
  lemma Bystander(self: Ptr, ptrs: Ptrs, m: Mem, r: set<Ptr>, m': Mem, r': set<Ptr>, lost: set<Ptr>, statics: set<Ptr>)
    requires Sound(self, ptrs, m, statics) && BlocksOf(self, ptrs) !! r
    requires m' - r' - lost == m - r
    ensures Sound(self, ptrs, m', statics) && Texts(ptrs, m') == Texts(ptrs, m)
    ensures BlocksOf(self, ptrs) !! r' && BlocksOf(self, ptrs) !! lost
  {
    BehindIsOwned(self, ptrs, m, statics, Host);
    var rest := m - r;
    assert forall p :: p in BlocksOf(self, ptrs) ==> p in rest && rest[p] == m[p];
    FrameSound(self, ptrs, m, m', statics);
  }
}
