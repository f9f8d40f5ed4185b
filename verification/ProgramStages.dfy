/** The stages of a program, from linear list to source to binary, and the identities that tie each stage to
    the one before. Rendering, compiling, digests and graph checks are arbitrary functions. */
module ProgramStages {
  import opened Topology

  // ----- the external signature -----

  datatype ScalarKind = Void | Index | WeakInt | WeakFloat | Int32 | Other(name: string)

  datatype DType = Scalar(kind: ScalarKind) | Vector(element: ScalarKind, count: nat) | Pointer | Image

  datatype ParamKind = Storage(space: nat) | ScalarParam

  datatype Param = Param(slot: nat, kind: ParamKind, dtype: DType, name: Option<string>)

  const UNASSIGNED: nat := 0xFFFF_FFFF_FFFF_FFFF

  predicate Concrete(kind: ScalarKind) {
    !(kind.Void? || kind.Index? || kind.WeakInt? || kind.WeakFloat?)
  }

  predicate StorageType(dtype: DType) {
    match dtype
    case Scalar(kind) => Concrete(kind)
    case Vector(kind, count) => count > 0 && Concrete(kind)
    case _ => false
  }

  /** What one descriptor must meet by itself. */
  predicate ParamOk(p: Param) {
    && p.slot != UNASSIGNED
    && if p.kind.Storage? then p.name.None? && StorageType(p.dtype)
       else p.dtype == Scalar(Int32) && p.name.Some? && p.name.value != ""
  }

  function StorageCount(abi: seq<Param>): nat {
    if abi == [] then 0
    else StorageCount(abi[..|abi| - 1]) + if abi[|abi| - 1].kind.Storage? then 1 else 0
  }

  function ScalarNames(abi: seq<Param>): seq<string> {
    if abi == [] then []
    else
      var p := abi[|abi| - 1];
      ScalarNames(abi[..|abi| - 1])
      + if p.kind.Storage? then [] else [if p.name.Some? then p.name.value else ""]
  }

  ghost predicate Distinct(names: seq<string>) {
    forall i, j :: 0 <= i < j < |names| ==> names[i] != names[j]
  }

  /** Descriptors in strictly ascending slots, with distinct scalar names. */
  ghost predicate AbiOk(abi: seq<Param>) {
    && (forall i :: 0 <= i < |abi| ==> ParamOk(abi[i]))
    && (forall i, j :: 0 <= i < j < |abi| ==> abi[i].slot < abi[j].slot)
    && Distinct(ScalarNames(abi))
  }

  ghost predicate Describes(abi: seq<Param>, buffers: nat, names: seq<string>) {
    AbiOk(abi) && buffers == StorageCount(abi) && names == ScalarNames(abi)
  }

  lemma {:induction false} NamesOfPrefix(abi: seq<Param>, n: nat)
    requires n <= |abi|
    ensures ScalarNames(abi[..n]) <= ScalarNames(abi)
    decreases |abi|
  {
    if n < |abi| {
      NamesOfPrefix(abi[..|abi| - 1], n);
      assert abi[..|abi| - 1][..n] == abi[..n];
    } else {
      assert abi[..n] == abi;
    }
  }

  lemma PrefixFails(abi: seq<Param>, n: nat)
    requires n <= |abi| && !AbiOk(abi[..n])
    ensures !AbiOk(abi)
  {
    NamesOfPrefix(abi, n);
    var some := abi[..n];
    if AbiOk(abi) {
      forall i | 0 <= i < n ensures ParamOk(some[i]) { assert ParamOk(abi[i]); }
      assert ScalarNames(some) == ScalarNames(abi)[..|ScalarNames(some)|];
      assert AbiOk(some);
      assert false;
    }
  }

  lemma OneMoreParam(abi: seq<Param>, n: nat)
    requires n < |abi|
    ensures StorageCount(abi[..n + 1]) == StorageCount(abi[..n]) + if abi[n].kind.Storage? then 1 else 0
    ensures ScalarNames(abi[..n + 1]) == ScalarNames(abi[..n])
      + if abi[n].kind.Storage? then [] else [if abi[n].name.Some? then abi[n].name.value else ""]
  {
    assert abi[..n + 1][..n] == abi[..n];
  }

  lemma NextParam(abi: seq<Param>, n: nat)
    requires n < |abi| && AbiOk(abi[..n]) && ParamOk(abi[n])
    requires n > 0 ==> abi[n].slot > abi[n - 1].slot
    ensures AbiOk(abi[..n + 1]) <==> abi[n].kind.Storage? || abi[n].name.value !in ScalarNames(abi[..n])
  {
    var before, after := abi[..n], abi[..n + 1];
    assert after[..n] == before;
    forall i, j | 0 <= i < j < |after| ensures after[i].slot < after[j].slot {
      if j == n && i < n - 1 { assert before[i].slot < before[n - 1].slot; }
    }
    if !abi[n].kind.Storage? && abi[n].name.value in ScalarNames(before) {
      var i :| 0 <= i < |ScalarNames(before)| && ScalarNames(before)[i] == abi[n].name.value;
      assert ScalarNames(after)[i] == ScalarNames(after)[|ScalarNames(before)|];
    }
  }

  /** What the loop below knows after n descriptors. */
  ghost predicate Scanned(
    abi: seq<Param>, n: nat, previous: Option<nat>, count: nat, names: seq<string>, unique: set<string>)
    requires n <= |abi|
  {
    && AbiOk(abi[..n]) && count == StorageCount(abi[..n]) && names == ScalarNames(abi[..n])
    && (forall name :: name in unique <==> name in names)
    && previous == if n == 0 then None else Some(abi[n - 1].slot)
  }

  predicate Refused(p: Param, previous: Option<nat>, unique: set<string>) {
    || !ParamOk(p) || (previous.Some? && p.slot <= previous.value)
    || (!p.kind.Storage? && p.name.Some? && p.name.value in unique)
  }

  lemma ScanNext(abi: seq<Param>, n: nat, previous: Option<nat>, count: nat, names: seq<string>, unique: set<string>)
    requires n < |abi| && Scanned(abi, n, previous, count, names, unique)
    ensures Refused(abi[n], previous, unique) ==> !AbiOk(abi)
    ensures !Refused(abi[n], previous, unique) ==>
      if abi[n].kind.Storage? then Scanned(abi, n + 1, Some(abi[n].slot), count + 1, names, unique)
      else Scanned(abi, n + 1, Some(abi[n].slot), count, names + [abi[n].name.value], unique + {abi[n].name.value})
  {
    if ParamOk(abi[n]) && (n > 0 ==> abi[n].slot > abi[n - 1].slot) {
      NextParam(abi, n);
      OneMoreParam(abi, n);
      if !AbiOk(abi[..n + 1]) { PrefixFails(abi, n + 1); }
    }
  }

  /** Element types a kernel's storage may have. */
  method SupportedElement(dtype: DType) returns (ok: bool)
    ensures ok <==> StorageType(dtype)
  {
    match dtype
    case Scalar(kind) => ok := kind !in {Void, Index, WeakInt, WeakFloat};
    case Vector(kind, count) => ok := count > 0 && kind !in {Void, Index, WeakInt, WeakFloat};
    case _ => ok := false;
  }

  /** `validate_abi_descriptors`. */
  method ValidateAbiDescriptors(abi: seq<Param>, buffers: nat, expected: seq<string>) returns (ok: bool)
    ensures ok <==> Describes(abi, buffers, expected)
  {
    var previous: Option<nat>, count: nat, names: seq<string> := None, 0, [];
    var unique: set<string> := {};
    for n := 0 to |abi|
      invariant Scanned(abi, n, previous, count, names, unique)
    {
      ScanNext(abi, n, previous, count, names, unique);
      var p := abi[n];
      if p.slot == 0xFFFF_FFFF_FFFF_FFFF { return false; }
      if previous.Some? && p.slot <= previous.value { return false; }
      previous := Some(p.slot);
      match p.kind {
        case Storage(_) =>
          if p.name.Some? { return false; }
          var supported := SupportedElement(p.dtype);
          if !supported { return false; }
          count := count + 1;
        case ScalarParam =>
          if p.dtype != Scalar(Int32) { return false; }
          if p.name.None? || p.name.value == "" { return false; }
          if p.name.value in unique { return false; }
          unique, names := unique + {p.name.value}, names + [p.name.value];
      }
    }
    assert abi[..|abi|] == abi;
    ok := count == buffers && names == expected;
  }

  // ----- programs and their stages -----

  type Digest = nat

  /** Sinks and linear lists are interned graphs, named by their ids. */
  datatype SourceIdentity = SourceIdentity(
    version: nat, abi: seq<Param>, target: DeviceSpec, entry: string, linearDigest: Digest, sourceDigest: Digest)

  datatype BinaryIdentity = BinaryIdentity(version: nat, source: SourceIdentity, compilerKey: string, digest: Digest)

  datatype SourceStage = SourceStage(code: string, identity: Option<SourceIdentity>)

  datatype BinaryStage = BinaryStage(bytes: seq<nat>, identity: Option<BinaryIdentity>)

  datatype Info = Info(target: DeviceSpec, entry: string, buffers: nat, names: seq<string>)

  datatype Program = Program(
    sink: nat, info: Info, linear: Option<nat>, source: Option<SourceStage>, binary: Option<BinaryStage>, tag: nat)

  datatype Spec = Spec(
    entry: string, code: string, target: DeviceSpec, sink: nat, abi: seq<Param>, buffers: nat, names: seq<string>)

  datatype Rendered = Rendered(
    code: string, entry: string, target: DeviceSpec, abi: seq<Param>, buffers: nat, names: seq<string>)

  datatype Compiled = Compiled(
    bytes: seq<nat>, entry: string, code: Option<string>, abi: seq<Param>, buffers: nat, names: seq<string>)

  /** A renderer, a compiler, the graph passes around them, and the digests. */
  datatype Toolchain = Toolchain(
    signature: (nat, Info) -> Option<seq<Param>>, sinkOk: nat -> bool, linearOk: nat -> bool, linearize: nat -> nat,
    device: DeviceSpec, render: (nat, string) -> Option<Rendered>,
    compilerKey: string, compile: Spec -> Option<Compiled>,
    linearDigest: nat -> Option<Digest>, codeDigest: string -> Digest, bytesDigest: seq<nat> -> Digest)

  datatype Target = Linear | Source | Binary

  const SOURCE_VERSION: nat := 2
  const BINARY_VERSION: nat := 1

  /** Each stage needs the ones before it, and the sink must have a signature. */
  predicate ShapeOk(t: Toolchain, p: Program) {
    && (p.source.Some? ==> p.linear.Some?) && (p.binary.Some? ==> p.source.Some?)
    && t.signature(p.sink, p.info).Some?
  }

  predicate FitsDevice(t: Toolchain, p: Program) {
    p.info.target == t.device && t.signature(p.sink, p.info).Some?
  }

  function SourceIdentityOf(t: Toolchain, info: Info, abi: seq<Param>, linear: Digest, code: string): SourceIdentity {
    SourceIdentity(SOURCE_VERSION, abi, info.target, info.entry, linear, t.codeDigest(code))
  }

  function BinaryIdentityOf(t: Toolchain, source: SourceIdentity, key: string, bytes: seq<nat>): BinaryIdentity {
    BinaryIdentity(BINARY_VERSION, source, key, t.bytesDigest(bytes))
  }

  /** `minted_source_stage_identity`: all but the digest of the linear list is derived anew. */
  function MintedSource(t: Toolchain, info: Info, abi: seq<Param>, source: SourceStage): Option<SourceIdentity> {
    if source.identity.None? then None
    else
      var expected := SourceIdentityOf(t, info, abi, source.identity.value.linearDigest, source.code);
      if source.identity.value == expected then Some(expected) else None
  }

  /** `ProgramSpec::from_uop`: the validated contents of a program that has a source. */
  ghost function SpecOf(t: Toolchain, p: Program): Option<Spec> {
    var abi := t.signature(p.sink, p.info);
    if p.linear.None? || p.source.None? || abi.None? then None
    else
      var minted := MintedSource(t, p.info, abi.value, p.source.value);
      if minted.None? || !BinaryNamed(t, minted.value, p.binary) then None
      else if !Describes(abi.value, p.info.buffers, p.info.names) then None
      else Some(Spec(p.info.entry, p.source.value.code, p.info.target, p.sink, abi.value, p.info.buffers, p.info.names))
  }

  /** A binary, if there is one, names the source and a compiler. */
  predicate BinaryNamed(t: Toolchain, source: SourceIdentity, binary: Option<BinaryStage>) {
    binary.Some? ==>
      && binary.value.identity.Some? && binary.value.identity.value.compilerKey != ""
      && binary.value.identity.value == BinaryIdentityOf(t, source, binary.value.identity.value.compilerKey,
        binary.value.bytes)
  }

  function DoLinearize(t: Toolchain, p: Program): Option<Program> {
    if !ShapeOk(t, p) then None
    else if p.linear.Some? then Some(p)
    else if !t.linearOk(t.linearize(p.sink)) then None
    else Some(p.(linear := Some(t.linearize(p.sink))))
  }

  ghost function DoRender(t: Toolchain, p: Program): Option<Program> {
    if !FitsDevice(t, p) || DoLinearize(t, p).None? then None
    else
      var abi, q := t.signature(p.sink, p.info).value, DoLinearize(t, p).value;
      if q.source.Some? then
        var digest := t.linearDigest(q.linear.value);
        if digest.None? || q.source.value.identity != Some(SourceIdentityOf(t, q.info, abi, digest.value,
          q.source.value.code))
          || SpecOf(t, q).None? then None
        else Some(q)
      else
        var r := t.render(q.linear.value, q.info.entry);
        if r.None? || !RenderedOk(r.value, q.info, abi) || t.linearDigest(q.linear.value).None? then None
        else
          var identity := SourceIdentityOf(t, q.info, abi, t.linearDigest(q.linear.value).value, r.value.code);
          var rendered := q.(source := Some(SourceStage(r.value.code, Some(identity))), binary := None);
          if SpecOf(t, rendered).None? then None else Some(rendered)
  }

  predicate RenderedOk(r: Rendered, info: Info, abi: seq<Param>) {
    && r.abi == abi && r.buffers == StorageCount(abi) && r.names == ScalarNames(abi)
    && r.target == info.target && r.entry == info.entry
  }

  ghost function DoCompile(t: Toolchain, p: Program): Option<Program> {
    if !ShapeOk(t, p) || p.source.None? || p.source.value.code == "" || SpecOf(t, p).None? then None
    else
      var spec := SpecOf(t, p).value;
      var source := MintedSource(t, p.info, spec.abi, p.source.value).value;
      if p.binary.Some? then
        if p.binary.value.identity == Some(BinaryIdentityOf(t, source, t.compilerKey, p.binary.value.bytes))
          && AbiOk(spec.abi) then Some(p) else None
      else
        var c := t.compile(spec);
        if c.None? || !CompiledOk(c.value, spec) then None
        else
          var identity := BinaryIdentityOf(t, source, t.compilerKey, c.value.bytes);
          var compiled := p.(binary := Some(BinaryStage(c.value.bytes, Some(identity))));
          if SpecOf(t, compiled).None? then None else Some(compiled)
  }

  ghost predicate CompiledOk(c: Compiled, spec: Spec) {
    && Describes(c.abi, c.buffers, c.names)
    && c.abi == spec.abi && c.buffers == spec.buffers && c.names == spec.names && c.entry == spec.entry
    && (c.code.Some? ==> c.code.value == spec.code)
  }

  /** What an externally supplied program must pass. */
  predicate Admitted(t: Toolchain, p: Program) {
    && ShapeOk(t, p) && t.sinkOk(p.sink) && (p.linear.Some? ==> t.linearOk(p.linear.value)) && FitsDevice(t, p)
  }

  /** `get_program`: advances a program to a stage. */
  ghost function GetProgram(t: Toolchain, p: Program, target: Target): Option<Program> {
    if !Admitted(t, p) then None
    else
      var linear := if p.linear.None? then DoLinearize(t, p) else Some(p);
      var rendered := if target.Linear? || linear.None? then linear else DoRender(t, linear.value);
      var compiled := if !target.Binary? || rendered.None? then rendered else DoCompile(t, rendered.value);
      if compiled.None? || !ShapeOk(t, compiled.value) then None
      else if !target.Linear? && SpecOf(t, compiled.value).None? then None
      else compiled
  }

  // ----- stages are only added -----

  predicate Keeps<T(==)>(before: Option<T>, after: Option<T>) {
    before.Some? ==> after == before
  }

  /** Nothing that was there is rewritten. */
  predicate Extends(p: Program, r: Program) {
    && r.sink == p.sink && r.info == p.info && r.tag == p.tag
    && Keeps(p.linear, r.linear) && Keeps(p.source, r.source) && Keeps(p.binary, r.binary)
  }

  predicate Reached(r: Program, target: Target) {
    && r.linear.Some? && (!target.Linear? ==> r.source.Some?) && (target.Binary? ==> r.binary.Some?)
  }

  /** No stage beyond the target appears that was not there. */
  predicate NoFurther(p: Program, r: Program, target: Target) {
    && (target.Linear? ==> r.source == p.source) && (!target.Binary? ==> r.binary == p.binary)
  }

  /** Advancing fills in the missing stages up to the target, keeps the prefix shape, and rewrites nothing. */
  lemma StagesOnlyGrow(t: Toolchain, p: Program, target: Target)
    ensures GetProgram(t, p, target).Some? ==>
      var r := GetProgram(t, p, target).value;
      ShapeOk(t, r) && Extends(p, r) && Reached(r, target) && NoFurther(p, r, target)
  {
  }

  lemma LinearizeOnce(t: Toolchain, p: Program)
    requires Admitted(t, p)
    ensures DoLinearize(t, p).Some? ==>
      var q := DoLinearize(t, p).value;
      Admitted(t, q) && q.linear.Some? && DoLinearize(t, q) == Some(q) && Extends(p, q)
    ensures p.linear.Some? ==> DoLinearize(t, p) == Some(p)
  {
  }

  lemma RenderOnce(t: Toolchain, q: Program)
    requires Admitted(t, q) && q.linear.Some?
    ensures DoRender(t, q).Some? ==>
      var r := DoRender(t, q).value;
      Admitted(t, r) && r.source.Some? && SpecOf(t, r).Some? && DoRender(t, r) == Some(r) && Extends(q, r)
  {
  }

  lemma CompileOnce(t: Toolchain, q: Program, r: Program)
    requires Admitted(t, q) && q.linear.Some? && DoRender(t, q) == Some(r)
    ensures DoCompile(t, r).Some? ==>
      var c := DoCompile(t, r).value;
      && Admitted(t, c) && c.binary.Some? && SpecOf(t, c).Some? && Extends(r, c)
      && DoRender(t, c) == Some(c) && DoCompile(t, c) == Some(c)
  {
    RenderOnce(t, q);
  }

  // ----- any route gives the same program -----

  function Further(a: Target, b: Target): Target {
    if a.Binary? || b.Binary? then Binary else if a.Source? || b.Source? then Source else Linear
  }

  function Furthest(targets: seq<Target>): Target {
    if targets == [] then Linear else Further(Furthest(targets[..|targets| - 1]), targets[|targets| - 1])
  }

  ghost function Then(t: Toolchain, p: Option<Program>, target: Target): Option<Program> {
    if p.None? then None else GetProgram(t, p.value, target)
  }

  /** Asking for one target after another. */
  ghost function Route(t: Toolchain, p: Program, targets: seq<Target>): Option<Program>
    requires targets != []
  {
    if |targets| == 1 then GetProgram(t, p, targets[0])
    else Then(t, Route(t, p, targets[..|targets| - 1]), targets[|targets| - 1])
  }

  /** How far each target goes, once the program is admitted. */
  lemma Reaches(t: Toolchain, p: Program)
    requires Admitted(t, p)
    ensures GetProgram(t, p, Linear) == DoLinearize(t, p)
    ensures GetProgram(t, p, Source) == if DoLinearize(t, p).None? then None else DoRender(t, DoLinearize(t, p).value)
    ensures GetProgram(t, p, Binary) ==
      if GetProgram(t, p, Source).None? then None else DoCompile(t, GetProgram(t, p, Source).value)
  {
    LinearizeOnce(t, p);
    if DoLinearize(t, p).Some? {
      var q := DoLinearize(t, p).value;
      RenderOnce(t, q);
      if DoRender(t, q).Some? { CompileOnce(t, q, DoRender(t, q).value); }
    }
  }

  /** Two targets in turn, in any order, are the further one at once. */
  lemma TwoTargets(t: Toolchain, p: Program, a: Target, b: Target)
    ensures Then(t, GetProgram(t, p, a), b) == GetProgram(t, p, Further(a, b))
  {
    if Admitted(t, p) {
      Reaches(t, p);
      LinearizeOnce(t, p);
      if DoLinearize(t, p).Some? { FromLinear(t, p, DoLinearize(t, p).value, a, b); }
    }
  }

  lemma FromLinear(t: Toolchain, p: Program, q: Program, a: Target, b: Target)
    requires Admitted(t, p) && DoLinearize(t, p) == Some(q)
    ensures Then(t, GetProgram(t, p, a), b) == GetProgram(t, p, Further(a, b))
  {
    Reaches(t, p);
    LinearizeOnce(t, p);
    Reaches(t, q);
    RenderOnce(t, q);
    if DoRender(t, q).Some? {
      var r := DoRender(t, q).value;
      Reaches(t, r);
      LinearizeOnce(t, r);
      CompileOnce(t, q, r);
      if DoCompile(t, r).Some? { Reaches(t, DoCompile(t, r).value); LinearizeOnce(t, DoCompile(t, r).value); }
    }
  }

  /** Any route, with repeats and in any order, is the furthest target at once: in success, in failure, in result. */
  lemma {:induction false} AnyRoute(t: Toolchain, p: Program, targets: seq<Target>)
    requires targets != []
    ensures Route(t, p, targets) == GetProgram(t, p, Furthest(targets))
  {
    var init, last := targets[..|targets| - 1], targets[|targets| - 1];
    if init != [] {
      AnyRoute(t, p, init);
      TwoTargets(t, p, Furthest(init), last);
    }
  }

  /** On any route: the missing stages up to the furthest target, none beyond it, and none rewritten. */
  lemma RouteOnlyGrows(t: Toolchain, p: Program, targets: seq<Target>)
    requires targets != [] && Route(t, p, targets).Some?
    ensures var r := Route(t, p, targets).value;
      && ShapeOk(t, r) && Extends(p, r)
      && Reached(r, Furthest(targets)) && NoFurther(p, r, Furthest(targets))
  {
    AnyRoute(t, p, targets);
    StagesOnlyGrow(t, p, Furthest(targets));
  }

  // ----- the identity chain -----

  /** Every stage names the contents of the one before: the source its linear list, signature, target and code,
      the binary that source, the compiler and the bytes. */
  predicate ChainOk(t: Toolchain, p: Program) {
    && p.linear.Some? && p.source.Some? && p.binary.Some?
    && t.signature(p.sink, p.info).Some? && t.linearDigest(p.linear.value).Some?
    && var source := SourceIdentityOf(t, p.info, t.signature(p.sink, p.info).value,
         t.linearDigest(p.linear.value).value, p.source.value.code);
    && p.source.value.identity == Some(source)
    && p.binary.value.identity == Some(BinaryIdentityOf(t, source, t.compilerKey, p.binary.value.bytes))
  }

  lemma BinaryHasChain(t: Toolchain, p: Program)
    ensures GetProgram(t, p, Binary).Some? ==> ChainOk(t, GetProgram(t, p, Binary).value)
  {
  }

  /** Whatever program goes in, on any route to a binary, what comes out has an unbroken chain. */
  lemma RouteHasChain(t: Toolchain, p: Program, targets: seq<Target>)
    requires targets != [] && Furthest(targets) == Binary && Route(t, p, targets).Some?
    ensures ChainOk(t, Route(t, p, targets).value)
  {
    AnyRoute(t, p, targets);
    BinaryHasChain(t, p);
  }

  /** Where the stages come from: a linear list that was missing is the linearized sink; code that was missing is what
      the renderer gives for that list and entry, and its report agrees with the program; bytes that were missing are
      what the compiler gives for that code, signature and target, and its report agrees too. */
  lemma RouteMakesStages(t: Toolchain, p: Program, targets: seq<Target>)
    requires targets != [] && Route(t, p, targets).Some?
    ensures var r := Route(t, p, targets).value;
      && r.linear.Some?
      && (p.linear.None? ==> r.linear.value == t.linearize(p.sink))
      && (p.source.None? && r.source.Some? ==> FromRenderer(t, p, r))
      && (p.binary.None? && r.binary.Some? ==> FromCompiler(t, p, r))
  {
    AnyRoute(t, p, targets);
    if Furthest(targets).Binary? {
      BinaryFromCompiler(t, p);
    } else if Furthest(targets).Source? {
      SourceFromRenderer(t, p);
    }
  }

  predicate FromRenderer(t: Toolchain, p: Program, r: Program)
    requires r.linear.Some? && r.source.Some?
  {
    var report := t.render(r.linear.value, p.info.entry);
    && report.Some? && report.value.code == r.source.value.code
    && t.signature(p.sink, p.info) == Some(report.value.abi) && report.value.target == p.info.target
    && report.value.entry == p.info.entry && report.value.buffers == StorageCount(report.value.abi)
    && report.value.names == ScalarNames(report.value.abi)
  }

  predicate FromCompiler(t: Toolchain, p: Program, r: Program)
    requires r.binary.Some?
  {
    && r.source.Some? && t.signature(p.sink, p.info).Some?
    && var abi, code := t.signature(p.sink, p.info).value, r.source.value.code;
    && var report := t.compile(
         Spec(p.info.entry, code, p.info.target, p.sink, abi, p.info.buffers, p.info.names));
    && code != "" && report.Some? && report.value.bytes == r.binary.value.bytes && report.value.abi == abi
    && report.value.buffers == p.info.buffers && report.value.names == p.info.names
    && report.value.entry == p.info.entry && (report.value.code.Some? ==> report.value.code.value == code)
  }

  lemma SourceFromRenderer(t: Toolchain, p: Program)
    ensures GetProgram(t, p, Source).Some? ==>
      var r := GetProgram(t, p, Source).value;
      && r.linear.Some? && r.source.Some?
      && (p.linear.None? ==> r.linear.value == t.linearize(p.sink))
      && (p.source.None? ==> FromRenderer(t, p, r)) && r.binary == p.binary
  {
  }

  lemma BinaryFromCompiler(t: Toolchain, p: Program)
    ensures GetProgram(t, p, Binary).Some? ==>
      var r := GetProgram(t, p, Binary).value;
      && r.linear.Some? && r.source.Some? && r.binary.Some?
      && (p.linear.None? ==> r.linear.value == t.linearize(p.sink))
      && (p.source.None? ==> FromRenderer(t, p, r))
      && (p.binary.None? ==> FromCompiler(t, p, r))
  {
    StagesOnlyGrow(t, p, Binary);
  }

  /** What an unbroken chain says, field by field. */
  lemma ChainNames(t: Toolchain, p: Program)
    ensures ChainOk(t, p) <==>
      && p.linear.Some? && p.source.Some? && p.binary.Some? && t.signature(p.sink, p.info).Some?
      && t.linearDigest(p.linear.value).Some?
      && p.source.value.identity.Some? && p.binary.value.identity.Some?
      && var s, b := p.source.value.identity.value, p.binary.value.identity.value;
      && s.version == 2 && s.abi == t.signature(p.sink, p.info).value && s.target == p.info.target
      && s.entry == p.info.entry && s.linearDigest == t.linearDigest(p.linear.value).value
      && s.sourceDigest == t.codeDigest(p.source.value.code)
      && b.version == 1 && b.source == s && b.compilerKey == t.compilerKey
      && b.digest == t.bytesDigest(p.binary.value.bytes)
  {
  }

  /** A program that comes with a binary is accepted exactly when its chain is unbroken and its parts are sound. */
  lemma AcceptedIffChain(t: Toolchain, p: Program)
    requires p.binary.Some?
    ensures GetProgram(t, p, Binary) ==
      if Admitted(t, p) && ChainOk(t, p) && p.source.value.code != "" && t.compilerKey != ""
        && Describes(t.signature(p.sink, p.info).value, p.info.buffers, p.info.names)
      then Some(p) else None
  {
  }

  lemma RouteAcceptsIffChain(t: Toolchain, p: Program, targets: seq<Target>)
    requires p.binary.Some? && targets != [] && Furthest(targets) == Binary
    ensures Route(t, p, targets) ==
      if Admitted(t, p) && ChainOk(t, p) && p.source.value.code != "" && t.compilerKey != ""
        && Describes(t.signature(p.sink, p.info).value, p.info.buffers, p.info.names)
      then Some(p) else None
  {
    AnyRoute(t, p, targets);
    AcceptedIffChain(t, p);
  }

  // ----- when a route succeeds -----

  /** The linear list a route works on. */
  function ListOf(t: Toolchain, p: Program): nat {
    if p.linear.Some? then p.linear.value else t.linearize(p.sink)
  }

  /** Stages come in order, the graph and list are valid, and the program is for this device and has a signature. */
  predicate ListReady(t: Toolchain, p: Program) {
    && (p.source.Some? ==> p.linear.Some?) && (p.binary.Some? ==> p.source.Some?)
    && t.sinkOk(p.sink) && t.linearOk(ListOf(t, p)) && p.info.target == t.device && t.signature(p.sink, p.info).Some?
  }

  predicate SourceNames(t: Toolchain, p: Program, s: SourceIdentity)
    requires t.signature(p.sink, p.info).Some? && t.linearDigest(ListOf(t, p)).Some? && p.source.Some?
  {
    && s.version == 2 && s.abi == t.signature(p.sink, p.info).value && s.target == p.info.target
    && s.entry == p.info.entry && s.linearDigest == t.linearDigest(ListOf(t, p)).value
    && s.sourceDigest == t.codeDigest(p.source.value.code)
  }

  /** The source is the renderer's for the list, or one supplied with the right identity; a binary beside it names
      it. */
  ghost predicate SourceReady(t: Toolchain, p: Program) {
    && t.signature(p.sink, p.info).Some? && t.linearDigest(ListOf(t, p)).Some?
    && Describes(t.signature(p.sink, p.info).value, p.info.buffers, p.info.names)
    && (if p.source.Some? then
          p.source.value.identity.Some? && SourceNames(t, p, p.source.value.identity.value)
        else
          var report := t.render(ListOf(t, p), p.info.entry);
          && report.Some? && report.value.abi == t.signature(p.sink, p.info).value
          && report.value.buffers == p.info.buffers && report.value.names == p.info.names
          && report.value.target == p.info.target && report.value.entry == p.info.entry)
    && (p.binary.Some? && p.source.Some? ==>
          && p.binary.value.identity.Some?
          && var b := p.binary.value.identity.value;
          && b.version == 1 && p.source.value.identity == Some(b.source) && b.compilerKey != ""
          && b.digest == t.bytesDigest(p.binary.value.bytes))
  }

  function CodeOf(t: Toolchain, p: Program): string {
    if p.source.Some? then p.source.value.code
    else
      var report := t.render(ListOf(t, p), p.info.entry);
      if report.Some? then report.value.code else ""
  }

  /** The binary is the compiler's for the code, or one supplied from the same compiler. */
  ghost predicate BinaryReady(t: Toolchain, p: Program) {
    && CodeOf(t, p) != "" && t.compilerKey != "" && t.signature(p.sink, p.info).Some?
    && if p.binary.Some? then
         p.binary.value.identity.Some? && p.binary.value.identity.value.compilerKey == t.compilerKey
       else
         var abi := t.signature(p.sink, p.info).value;
         var report := t.compile(
           Spec(p.info.entry, CodeOf(t, p), p.info.target, p.sink, abi, p.info.buffers, p.info.names));
         && report.Some? && report.value.abi == abi && report.value.buffers == p.info.buffers
         && report.value.names == p.info.names && report.value.entry == p.info.entry
         && (report.value.code.Some? ==> report.value.code.value == CodeOf(t, p))
  }

  lemma ListSucceeds(t: Toolchain, p: Program)
    ensures GetProgram(t, p, Linear).Some? <==> ListReady(t, p)
  {
  }

  lemma SourceSucceeds(t: Toolchain, p: Program)
    ensures GetProgram(t, p, Source).Some? <==> ListReady(t, p) && SourceReady(t, p)
  {
  }

  lemma BinarySucceeds(t: Toolchain, p: Program)
    ensures GetProgram(t, p, Binary).Some? <==> ListReady(t, p) && SourceReady(t, p) && BinaryReady(t, p)
  {
  }

  /** The single steps check the same by themselves, except what the pipeline checks around them. */
  lemma LinearizeSucceeds(t: Toolchain, p: Program)
    ensures DoLinearize(t, p).Some? <==>
      && (p.source.Some? ==> p.linear.Some?) && (p.binary.Some? ==> p.source.Some?)
      && t.signature(p.sink, p.info).Some? && (p.linear.None? ==> t.linearOk(t.linearize(p.sink)))
  {
  }

  lemma RenderSucceeds(t: Toolchain, p: Program)
    ensures DoRender(t, p).Some? <==>
      DoLinearize(t, p).Some? && p.info.target == t.device && SourceReady(t, p)
  {
  }

  /** A route succeeds exactly if every stage up to the furthest target is ready, whether it was supplied or is made. */
  lemma RouteSucceeds(t: Toolchain, p: Program, targets: seq<Target>)
    requires targets != []
    ensures Route(t, p, targets).Some? <==>
      && ListReady(t, p)
      && (!Furthest(targets).Linear? ==> SourceReady(t, p))
      && (Furthest(targets).Binary? ==> BinaryReady(t, p))
  {
    AnyRoute(t, p, targets);
    ListSucceeds(t, p);
    SourceSucceeds(t, p);
    BinarySucceeds(t, p);
  }

  /** Compiling alone takes the digest of the linear list on trust: the chain then holds if and only if that digest is
      right. */
  lemma CompileTrustsDigest(t: Toolchain, p: Program)
    requires DoCompile(t, p).Some?
    ensures p.linear.Some? && p.source.Some? && p.source.value.identity.Some?
    ensures ChainOk(t, DoCompile(t, p).value) <==>
      t.linearDigest(p.linear.value) == Some(p.source.value.identity.value.linearDigest)
  {
  }
}
