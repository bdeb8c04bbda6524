/** The cache of compiled templates and components, checked against the files' times while
    others go on writing the files. */
module TemplateCache {
  import opened Common

  /** A path, in the one case the cache's keys are compared in. */
  type Path = string

  type Addr = int

  /** Per path, the modification times of all its versions so far, 0 for a removed file. */
  type Disk = map<Path, seq<int>>

  datatype Write = Write(path: Path, time: int)

  function Versions(disk: Disk, p: Path): seq<int>
  {
    if p in disk then disk[p] else []
  }

  /** The version now on disk; -1 if there has never been a file. */
  function Version(disk: Disk, p: Path): int
  {
    |Versions(disk, p)| - 1
  }

  function ModTime(disk: Disk, p: Path): int
  {
    var v := Versions(disk, p);
    if v == [] then 0 else v[|v| - 1]
  }

  function After(disk: Disk, writes: seq<Write>): Disk
    decreases |writes|
  {
    if writes == [] then disk
    else After(disk[writes[0].path := Versions(disk, writes[0].path) + [writes[0].time]], writes[1..])
  }

  /** No two versions of a file have the same time. */
  ghost predicate WellDated(disk: Disk)
  {
    forall p, i, j :: p in disk && 0 <= i < j < |disk[p]| && disk[p][i] != 0 ==> disk[p][i] != disk[p][j]
  }

  ghost predicate Grown(disk: Disk, disk': Disk)
  {
    forall p :: Versions(disk, p) <= Versions(disk', p)
  }

  lemma {:induction false} AfterGrows(disk: Disk, writes: seq<Write>)
    ensures Grown(disk, After(disk, writes))
    decreases |writes|
  {
    if writes != [] {
      AfterGrows(disk[writes[0].path := Versions(disk, writes[0].path) + [writes[0].time]], writes[1..]);
    }
  }

  lemma TimesAgree(disk: Disk, disk': Disk, p: Path, w: int, time: int)
    requires Grown(disk, disk') && WellDated(disk')
    requires 0 <= w < |Versions(disk', p)| && Versions(disk', p)[w] == time == ModTime(disk, p) != 0
    ensures w == Version(disk, p)
  {
    var v := Version(disk, p);
    assert Versions(disk', p)[v] == time;
  }

  /** A compiled component: which version of which file it was made from. */
  datatype Info = Info(path: Path, version: int, refs: int)

  datatype Template = Template(version: int)

  /** A cached time is that of a version no later than the one compiled. */
  ghost predicate Stamped(disk: Disk, p: Path, version: int, time: int)
  {
    time != 0 && exists w :: 0 <= w <= version && w < |Versions(disk, p)| && Versions(disk, p)[w] == time
  }

  lemma StampedStays(disk: Disk, disk': Disk, p: Path, version: int, time: int)
    requires Stamped(disk, p, version, time) && Grown(disk, disk')
    ensures Stamped(disk', p, version, time)
  {
    var w :| 0 <= w <= version && w < |Versions(disk, p)| && Versions(disk, p)[w] == time;
    assert Versions(disk', p)[w] == time;
  }

  type Components = map<Path, Addr>

  type Infos = map<Addr, Info>

  /** A reference is given back; the last one frees the component. */
  function Released(infos: Infos, a: Addr): Infos
    requires a in infos
  {
    if infos[a].refs > 1 then infos[a := infos[a].(refs := infos[a].refs - 1)] else infos - {a}
  }

  /** The reference the cache has to a component, 0 or 1. */
  function Owned(c: Components, infos: Infos, a: Addr): int
  {
    if a in infos && infos[a].path in c && c[infos[a].path] == a then 1 else 0
  }

  /** A component is referred to by those it was handed to and by the cache, and exists as
      long as it is referred to. */
  ghost predicate Counted(c: Components, infos: Infos, handed: multiset<Addr>)
  {
    && (forall a :: a in infos ==> infos[a].refs == handed[a] + Owned(c, infos, a) && infos[a].refs > 0)
    && (forall a :: a in handed ==> a in infos)
    && (forall p :: p in c ==> c[p] in infos && infos[c[p]].path == p)
  }

  ghost predicate Timed(disk: Disk, c: Components, times: map<Path, int>, infos: Infos)
  {
    && times.Keys == c.Keys
    && forall p :: p in c && c[p] in infos ==> Stamped(disk, p, infos[c[p]].version, times[p])
  }

  lemma DropCounted(c: Components, infos: Infos, handed: multiset<Addr>, p: Path)
    requires Counted(c, infos, handed) && p in c
    ensures c[p] in infos && Counted(c - {p}, Released(infos, c[p]), handed)
  {
    var a := c[p];
    assert Owned(c, infos, a) == 1;
    var infos' := Released(infos, a);
    forall x | x in infos' ensures Owned(c - {p}, infos', x) == Owned(c, infos, x) - if x == a then 1 else 0 {}
    hide Owned;
  }

  lemma DropTimed(disk: Disk, c: Components, times: map<Path, int>, infos: Infos, p: Path)
    requires Timed(disk, c, times, infos) && p in c && c[p] in infos
    requires forall q :: q in c ==> c[q] in infos && infos[c[q]].path == q
    ensures Timed(disk, c - {p}, times - {p}, Released(infos, c[p]))
  {
    hide Stamped;
    assert forall q :: q in c && q != p ==> c[q] != c[p];
  }

  lemma HandCounted(c: Components, infos: Infos, handed: multiset<Addr>, a: Addr)
    requires Counted(c, infos, handed) && a in infos
    ensures Counted(c, infos[a := infos[a].(refs := infos[a].refs + 1)], handed + multiset{a})
  {
    var infos' := infos[a := infos[a].(refs := infos[a].refs + 1)];
    forall x ensures Owned(c, infos', x) == Owned(c, infos, x) {}
    hide Owned;
    forall x | x in infos' ensures infos'[x].refs == (handed + multiset{a})[x] + Owned(c, infos', x) {}
  }

  lemma ReleaseCounted(c: Components, infos: Infos, handed: multiset<Addr>, a: Addr)
    requires Counted(c, infos, handed) && a in handed
    ensures a in infos && Counted(c, Released(infos, a), handed - multiset{a})
    ensures infos[a].refs == 1 <==> handed[a] == 1 && Owned(c, infos, a) == 0
  {
    var infos' := Released(infos, a);
    forall x | x in infos' ensures Owned(c, infos', x) == Owned(c, infos, x) {}
    forall p | p in c ensures c[p] in infos' && infos'[c[p]].path == p {
      if c[p] == a { assert Owned(c, infos, a) == 1; }
    }
    hide Owned;
    forall x | x in infos' ensures infos'[x].refs == (handed - multiset{a})[x] + Owned(c, infos', x) {}
  }

  lemma CompileCounted(c: Components, infos: Infos, handed: multiset<Addr>, a: Addr, p: Path, version: int)
    requires Counted(c, infos, handed) && p !in c && a !in infos
    ensures Counted(c[p := a], infos[a := Info(p, version, 2)], handed + multiset{a})
  {
    var c', infos' := c[p := a], infos[a := Info(p, version, 2)];
    assert Owned(c', infos', a) == 1;
    forall x | x in infos ensures Owned(c', infos', x) == Owned(c, infos, x) {}
    hide Owned;
    forall x | x in infos' ensures infos'[x].refs == (handed + multiset{a})[x] + Owned(c', infos', x) {}
  }

  lemma TimedStays(disk: Disk, disk': Disk, c: Components, times: map<Path, int>, infos: Infos)
    requires Timed(disk, c, times, infos) && Grown(disk, disk')
    ensures Timed(disk', c, times, infos)
  {
    forall p | p in c && c[p] in infos ensures Stamped(disk', p, infos[c[p]].version, times[p]) {
      StampedStays(disk, disk', p, infos[c[p]].version, times[p]);
    }
    hide Stamped;
  }

  /** What is found under the time a file had before is no older than it was then. */
  lemma CachedFresh(before: Disk, disk: Disk, p: Path, version: int)
    requires Grown(before, disk) && WellDated(disk) && Stamped(disk, p, version, ModTime(before, p))
    ensures version >= Version(before, p)
  {
    var time := ModTime(before, p);
    var w :| 0 <= w <= version && w < |Versions(disk, p)| && Versions(disk, p)[w] == time;
    TimesAgree(before, disk, p, w, time);
  }

  /** A cached template: `time` is that of version `stamp`, looked at once version `version`
      had been compiled. */
  ghost predicate StampedAt(disk: Disk, p: Path, version: int, time: int, stamp: int)
  {
    && version <= stamp < |Versions(disk, p)|
    && time == if stamp >= 0 then Versions(disk, p)[stamp] else 0
  }

  ghost predicate TemplatesStamped(disk: Disk, ts: map<Path, Template>, times: map<Path, int>, stamps: map<Path, int>)
  {
    && times.Keys == ts.Keys == stamps.Keys
    && forall p :: p in ts ==> StampedAt(disk, p, ts[p].version, times[p], stamps[p])
  }

  lemma TemplatesStay(disk: Disk, disk': Disk, ts: map<Path, Template>, times: map<Path, int>, stamps: map<Path, int>)
    requires TemplatesStamped(disk, ts, times, stamps) && Grown(disk, disk')
    ensures TemplatesStamped(disk', ts, times, stamps)
  {
    hide Versions;
    forall p | p in ts ensures StampedAt(disk', p, ts[p].version, times[p], stamps[p]) {
      assert StampedAt(disk, p, ts[p].version, times[p], stamps[p]);
      assert Versions(disk, p) <= Versions(disk', p);
    }
  }

  /** A template found under the time a file has was stored when the file was at the version it
      is at now.  So it is outdated exactly if the version compiled is another one. */
  lemma TemplateFresh(disk: Disk, p: Path, version: int, time: int, stamp: int)
    requires WellDated(disk) && StampedAt(disk, p, version, time, stamp) && time == ModTime(disk, p) != 0
    ensures stamp == Version(disk, p)
  {
    TimesAgree(disk, disk, p, stamp, ModTime(disk, p));
  }

  /** All that holds of the cached components. */
  ghost predicate Sound(disk: Disk, c: Components, times: map<Path, int>, infos: Infos, next: Addr,
                        handed: multiset<Addr>, compiled: int)
  {
    && Counted(c, infos, handed) && Timed(disk, c, times, infos) && WellDated(disk)
    && (forall a :: a in infos ==> a < next)
    && compiled == |c|
  }

  lemma DropSound(disk: Disk, c: Components, times: map<Path, int>, infos: Infos, next: Addr, handed: multiset<Addr>,
                  compiled: int, p: Path)
    requires Sound(disk, c, times, infos, next, handed, compiled) && p in c
    ensures c[p] in infos && infos[c[p]].refs > 0
    ensures Sound(disk, c - {p}, times - {p}, Released(infos, c[p]), next, handed, compiled - 1)
  {
    CachedIs(disk, c, times, infos, handed, p);
    CachedAll(c, infos, handed);
    RefsPositive(c, infos, handed, c[p]);
    DropCounted(c, infos, handed, p);
    DropTimed(disk, c, times, infos, p);
    hide Counted, Timed, WellDated;
  }

  lemma ReleaseSound(disk: Disk, c: Components, times: map<Path, int>, infos: Infos, next: Addr, handed: multiset<Addr>,
                     compiled: int, a: Addr)
    requires Sound(disk, c, times, infos, next, handed, compiled) && a in handed
    ensures a in infos && Sound(disk, c, times, Released(infos, a), next, handed - multiset{a}, compiled)
    ensures a !in Released(infos, a) <==> handed[a] == 1 && Owned(c, infos, a) == 0
  {
    ReleaseCounted(c, infos, handed, a);
    ReleaseTimed(disk, c, times, infos, handed, a);
    RefsPositive(c, infos, handed, a);
    hide Counted, Timed, WellDated, Owned;
  }

  lemma CompileSound(before: Disk, disk: Disk, c: Components, times: map<Path, int>, infos: Infos, next: Addr,
                     handed: multiset<Addr>,
                     compiled: int, p: Path)
    requires Sound(disk, c, times, infos, next, handed, compiled) && p !in c && Grown(before, disk) && ModTime(before, p) != 0
    ensures Sound(disk, c[p := next], times[p := ModTime(before, p)], infos[next := Info(p, Version(disk, p), 2)], next + 1,
                  handed + multiset{next}, compiled + 1)
  {
    CompileCounted(c, infos, handed, next, p, Version(disk, p));
    CachedAll(c, infos, handed);
    CompileTimed(before, disk, c, times, infos, next, p);
    hide Counted, Timed, WellDated, Grown, Versions, ModTime;
  }

  class Cache {
    var disk: Disk
    var components: Components
    var componentTimes: map<Path, int>
    var infos: Infos
    var next: Addr
    var compiledComponents: int
    var templates: map<Path, Template>
    var templateTimes: map<Path, int>
    var compiledTemplates: int
    /** The version whose time is kept with a template. */
    ghost var stamps: map<Path, int>
    /** One reference for every one that a caller was handed and has not released. */
    ghost var handed: multiset<Addr>

    ghost predicate Valid()
      reads this
    {
      && Sound(disk, components, componentTimes, infos, next, handed, compiledComponents)
      && compiledTemplates == |templates| && TemplatesStamped(disk, templates, templateTimes, stamps)
    }

    constructor ()
      ensures Valid() && disk == map[] && handed == multiset{} && components == map[] && templates == map[]
    {
      disk, components, componentTimes, infos, next := map[], map[], map[], map[], 0;
      templates, templateTimes, stamps, compiledTemplates, compiledComponents := map[], map[], map[], 0, 0;
      handed := multiset{};
    }

    method Others(writes: seq<Write>)
      requires Valid() && WellDated(After(disk, writes))
      modifies this`disk
      ensures Valid() && disk == After(old(disk), writes) && Grown(old(disk), disk)
    {
      hide Counted, Timed, WellDated, Grown, TemplatesStamped;
      AfterGrows(disk, writes);
      TimedStays(disk, After(disk, writes), components, componentTimes, infos);
      TemplatesStay(disk, After(disk, writes), templates, templateTimes, stamps);
      disk := After(disk, writes);
    }

    /** A caller gives its reference back; the last one frees the component. */
    method Release(a: Addr)
      requires Valid() && a in handed
      modifies this`infos, this`handed
      ensures Valid() && handed == old(handed) - multiset{a}
      ensures a !in infos <==> old(handed)[a] == 1 && Owned(components, old(infos), a) == 0
      ensures infos == Released(old(infos), a)
    {
      hide Sound, Released, Owned;
      ReleaseSound(disk, components, componentTimes, infos, next, handed, compiledComponents, a);
      infos := Released(infos, a);
      handed := handed - multiset{a};
    }

    /** The file is looked at once, on entry; `during` is what others write until it is
        compiled.  The component handed out is no older than the version looked at. */
    method GetComponent(p: Path, during: seq<Write>, compiles: bool) returns (r: Option<Addr>)
      requires Valid() && WellDated(After(disk, during))
      modifies this
      ensures Valid() && disk == After(old(disk), during)
      ensures r.Some? ==> r.value in infos && infos[r.value].path == p && infos[r.value].version >= Version(old(disk), p)
      ensures r.Some? ==> p in components && components[p] == r.value && componentTimes[p] == ModTime(old(disk), p)
      ensures p in old(components) && old(componentTimes)[p] == ModTime(old(disk), p) != 0 ==>
                && r == Some(old(components)[p]) && r.value in old(infos) && components == old(components)
                && infos == old(infos)[r.value := old(infos)[r.value].(refs := old(infos)[r.value].refs + 1)]
      ensures r.Some? && !(p in old(components) && old(componentTimes)[p] == ModTime(old(disk), p)) ==>
                infos[r.value] == Info(p, Version(disk, p), 2) && components == old(components)[p := r.value]
      ensures handed == old(handed) + if r.Some? then multiset{r.value} else multiset{}
      ensures r.None? <==>
                || ModTime(old(disk), p) == 0
                || (!compiles && !(p in old(components) && old(componentTimes)[p] == ModTime(old(disk), p)))
    {
      hide Counted, Timed, Grown, WellDated, Versions, After, Released, TemplatesStamped;
      var currentMod := ModTime(disk, p);
      Others(during);
      if currentMod == 0 { return None; }
      if p in components {
        CachedIs(disk, components, componentTimes, infos, handed, p);
        var a := components[p];
        if componentTimes[p] == currentMod {
          CachedFresh(old(disk), disk, p, infos[a].version);
          HandOut(p);
          return Some(a);
        }
        Drop(p);
      }
      if !compiles { return None; }
      Compile(p, currentMod, old(disk));
      r := Some(components[p]);
    }

    method HandOut(p: Path)
      requires Valid() && p in components && components[p] in infos
      modifies this`infos, this`handed
      ensures Valid() && handed == old(handed) + multiset{components[p]} && infos.Keys == old(infos).Keys
      ensures infos == old(infos)[components[p] := old(infos)[components[p]].(refs := old(infos)[components[p]].refs + 1)]
    {
      hide Counted, WellDated, Stamped, TemplatesStamped;
      var a := components[p];
      HandCounted(components, infos, handed, a);
      infos := infos[a := infos[a].(refs := infos[a].refs + 1)];
      handed := handed + multiset{a};
    }

    /** An entry whose time no longer fits is taken out. */
    method Drop(p: Path)
      requires Valid() && p in components
      modifies this`infos, this`components, this`componentTimes, this`compiledComponents
      ensures Valid() && components == old(components) - {p} && componentTimes == old(componentTimes) - {p}
    {
      hide Sound, Released, TemplatesStamped;
      DropSound(disk, components, componentTimes, infos, next, handed, compiledComponents, p);
      infos := Released(infos, components[p]);
      components, componentTimes := components - {p}, componentTimes - {p};
      compiledComponents := compiledComponents - 1;
    }

    /** The file as it is now, kept under the time it was looked at, and handed out. */
    method Compile(p: Path, time: int, ghost before: Disk)
      requires Valid() && p !in components && Grown(before, disk) && time == ModTime(before, p) != 0
      modifies this`infos, this`components, this`componentTimes, this`compiledComponents, this`handed, this`next
      ensures Valid() && p in components && components[p] in infos && componentTimes[p] == time
      ensures infos[components[p]] == Info(p, Version(disk, p), 2) && Version(disk, p) >= Version(before, p)
      ensures components == old(components)[p := components[p]]
      ensures handed == old(handed) + multiset{components[p]}
    {
      hide Sound, Grown, Versions, Version, ModTime, TemplatesStamped;
      CompileSound(before, disk, components, componentTimes, infos, next, handed, compiledComponents, p);
      GrownVersion(before, disk, p);
      infos := infos[next := Info(p, Version(disk, p), 2)];
      components := components[p := next];
      componentTimes := componentTimes[p := time];
      compiledComponents := compiledComponents + 1;
      handed := handed + multiset{next};
      next := next + 1;
    }

    /** Every component's reference is given back. */
    method DropAll()
      requires Valid()
      modifies this`infos, this`components, this`componentTimes, this`compiledComponents
      ensures Valid() && components == map[]
    {
      hide Sound, TemplatesStamped;
      while components.Keys != {}
        invariant Valid()
        decreases |components|
      {
        var p :| p in components;
        Drop(p);
      }
    }

    /** Everything is forgotten; what was handed out lives on. */
    method Clear()
      requires Valid()
      modifies this
      ensures Valid() && components == map[] && templates == map[] && handed == old(handed) && disk == old(disk)
      ensures forall a :: a in infos <==> a in handed
    {
      hide Sound, TemplatesStamped;
      NoTemplates(disk);
      DropAll();
      OnlyHanded(disk, components, componentTimes, infos, next, handed, compiledComponents);
      templates, templateTimes, stamps, compiledTemplates, compiledComponents := map[], map[], map[], 0, 0;
    }

    /** A hit needs one look at the file's time.  Otherwise the time is looked at after the
        file was compiled, `during` being what others write in between.  A compilation that
        throws leaves the path without an entry. */
    method GetTemplate(p: Path, during: seq<Write>, compiles: bool) returns (r: Option<Template>, hit: bool)
      requires Valid() && WellDated(After(disk, during))
      modifies this
      ensures Valid() && handed == old(handed) && components == old(components)
      ensures hit <==> p in old(templates) && old(templateTimes)[p] == ModTime(old(disk), p)
      ensures disk == After(old(disk), during) && Grown(old(disk), disk)
      ensures hit ==> r == Some(old(templates)[p])
      ensures hit ==> templates == old(templates) && templateTimes == old(templateTimes) && stamps == old(stamps)
      ensures hit && ModTime(old(disk), p) != 0 ==> stamps[p] == Version(old(disk), p)
      ensures !hit ==> r == if compiles then Some(Template(Version(old(disk), p))) else None
      ensures !hit && compiles ==>
                && templates == old(templates)[p := r.value] && stamps == old(stamps)[p := Version(disk, p)]
                && templateTimes == old(templateTimes)[p := ModTime(disk, p)]
      ensures !hit && !compiles ==> templates == old(templates) - {p} && stamps == old(stamps) - {p}
    {
      hide Sound, After, ModTime, WellDated, Grown, Versions, TemplatesStamped, StampedAt;
      hit := false;
      TemplateKeys(disk, templates, templateTimes, stamps);
      if p in templates {
        TemplateAt(disk, templates, templateTimes, stamps, p);
        var currentMod := ModTime(disk, p);
        if currentMod == templateTimes[p] {
          SoundDated(disk, components, componentTimes, infos, next, handed, compiledComponents);
          if currentMod != 0 { TemplateFresh(disk, p, templates[p].version, templateTimes[p], stamps[p]); }
          Others(during);
          return Some(templates[p]), true;
        }
        ForgetTemplate(p);
      }
      Without(old(templates), p, Template(0));
      Without(old(stamps), p, 0);
      Without(old(templateTimes), p, 0);
      var t := Template(Version(disk, p));
      Others(during);
      if !compiles { return None, false; }
      KeepTemplate(p, t, old(disk));
      Without(old(templates), p, t);
      Without(old(stamps), p, Version(disk, p));
      Without(old(templateTimes), p, ModTime(disk, p));
      r := Some(t);
    }

    method ForgetTemplate(p: Path)
      requires Valid() && p in templates
      modifies this`templates, this`templateTimes, this`stamps, this`compiledTemplates
      ensures Valid() && templates == old(templates) - {p}
      ensures templateTimes == old(templateTimes) - {p} && stamps == old(stamps) - {p}
    {
      hide Sound, TemplatesStamped;
      TemplateForgotten(disk, templates, templateTimes, stamps, p);
      templates, templateTimes, stamps := templates - {p}, templateTimes - {p}, stamps - {p};
      compiledTemplates := compiledTemplates - 1;
    }

    method KeepTemplate(p: Path, t: Template, ghost before: Disk)
      requires Valid() && p !in templates && Grown(before, disk) && t.version == Version(before, p)
      modifies this`templates, this`templateTimes, this`stamps, this`compiledTemplates
      ensures Valid() && templates == old(templates)[p := t]
      ensures templateTimes == old(templateTimes)[p := ModTime(disk, p)] && stamps == old(stamps)[p := Version(disk, p)]
    {
      hide Sound, Grown, StampedAt, ModTime, Versions, Version, TemplatesStamped;
      KeptStamp(before, disk, p);
      TemplateKept(disk, templates, templateTimes, stamps, p, t, ModTime(disk, p), Version(disk, p));
      templates := templates[p := t];
      templateTimes := templateTimes[p := ModTime(disk, p)];
      stamps := stamps[p := Version(disk, p)];
      compiledTemplates := compiledTemplates + 1;
    }
  }

  lemma NoTemplates(disk: Disk)
    ensures TemplatesStamped(disk, map[], map[], map[])
  {
  }

  lemma TemplateKeys(disk: Disk, ts: map<Path, Template>, times: map<Path, int>, stamps: map<Path, int>)
    requires TemplatesStamped(disk, ts, times, stamps)
    ensures times.Keys == ts.Keys == stamps.Keys
  {
  }

  lemma TemplateKept(disk: Disk, ts: map<Path, Template>, times: map<Path, int>, stamps: map<Path, int>, p: Path,
                     t: Template, time: int, stamp: int)
    requires TemplatesStamped(disk, ts, times, stamps) && StampedAt(disk, p, t.version, time, stamp)
    ensures TemplatesStamped(disk, ts[p := t], times[p := time], stamps[p := stamp])
  {
    hide StampedAt;
  }

  lemma TemplateForgotten(disk: Disk, ts: map<Path, Template>, times: map<Path, int>, stamps: map<Path, int>, p: Path)
    requires TemplatesStamped(disk, ts, times, stamps)
    ensures TemplatesStamped(disk, ts - {p}, times - {p}, stamps - {p})
  {
    hide StampedAt;
  }

  lemma KeptStamp(before: Disk, disk: Disk, p: Path)
    requires Grown(before, disk)
    ensures StampedAt(disk, p, Version(before, p), ModTime(disk, p), Version(disk, p))
  {
  }

  lemma Without<T>(m: map<Path, T>, p: Path, x: T)
    ensures (m - {p})[p := x] == m[p := x]
    ensures p !in m ==> m - {p} == m
  {
  }

  lemma TemplateAt(disk: Disk, ts: map<Path, Template>, times: map<Path, int>, stamps: map<Path, int>, p: Path)
    requires TemplatesStamped(disk, ts, times, stamps) && p in ts
    ensures p in times && p in stamps && StampedAt(disk, p, ts[p].version, times[p], stamps[p])
  {
  }

  lemma SoundDated(disk: Disk, c: Components, times: map<Path, int>, infos: Infos, next: Addr, handed: multiset<Addr>,
                   compiled: int)
    requires Sound(disk, c, times, infos, next, handed, compiled)
    ensures WellDated(disk)
  {
  }

  // -------------------------------------------------------------------- runs

  /** A template asked for: what others write before, and before the answer is given. */
  datatype Request = Request(before: seq<Write>, p: Path, during: seq<Write>, compiles: bool)

  /** The answer, with the disk when it was asked for and when it was given. */
  datatype Answer = Answer(p: Path, hit: bool, t: Option<Template>, asked: Disk, given: Disk)

  function Asked(disk: Disk, r: Request): Disk
  {
    After(disk, r.before)
  }

  function Final(disk: Disk, requests: seq<Request>): Disk
    decreases |requests|
  {
    if requests == [] then disk
    else Final(After(Asked(disk, requests[0]), requests[0].during), requests[1..])
  }

  lemma GrownTransitive(a: Disk, b: Disk, c: Disk)
    requires Grown(a, b) && Grown(b, c)
    ensures Grown(a, c)
  {
    hide Versions;
    forall p ensures Versions(a, p) <= Versions(c, p) {
      assert Versions(a, p) <= Versions(b, p) <= Versions(c, p);
    }
  }

  lemma {:induction false} FinalGrows(disk: Disk, requests: seq<Request>)
    ensures Grown(disk, Final(disk, requests))
    decreases |requests|
  {
    if requests != [] {
      var asked := Asked(disk, requests[0]);
      var given := After(asked, requests[0].during);
      AfterGrows(disk, requests[0].before);
      AfterGrows(asked, requests[0].during);
      FinalGrows(given, requests[1..]);
      hide Grown, After;
      GrownTransitive(disk, asked, given);
      GrownTransitive(disk, given, Final(given, requests[1..]));
    }
  }

  lemma GrownDated(disk: Disk, disk': Disk)
    requires Grown(disk, disk') && WellDated(disk')
    ensures WellDated(disk)
  {
    forall p, i, j | p in disk && 0 <= i < j < |disk[p]| && disk[p][i] != 0 ensures disk[p][i] != disk[p][j] {
      assert Versions(disk, p) <= Versions(disk', p);
    }
  }

  /** In a run without two equal times the disks on the way have none either. */
  lemma DatedOnTheWay(disk: Disk, requests: seq<Request>)
    requires WellDated(Final(disk, requests)) && requests != []
    ensures var asked := Asked(disk, requests[0]);
            var given := After(asked, requests[0].during);
            WellDated(asked) && WellDated(given) && Final(disk, requests) == Final(given, requests[1..])
  {
    var asked := Asked(disk, requests[0]);
    var given := After(asked, requests[0].during);
    FinalGrows(given, requests[1..]);
    AfterGrows(asked, requests[0].during);
    hide Grown, WellDated, After, Asked;
    GrownDated(given, Final(disk, requests));
    GrownDated(asked, given);
  }

  /** What was compiled for an earlier answer is current now exactly if nobody wrote the file
      between its compilation and the look at its time. */
  ghost predicate HitOf(answers: seq<Answer>, i: nat, j: nat)
    requires j < i < |answers|
  {
    var a, c := answers[i], answers[j];
    && c.p == a.p && !c.hit && c.t == a.t && a.t.Some?
    && (ModTime(a.asked, a.p) != 0 ==>
          (a.t.value.version == Version(a.asked, a.p) <==> Versions(c.given, a.p) == Versions(c.asked, a.p)))
  }

  /** Where the cached templates came from: `origin` is the answer each was compiled for. */
  ghost predicate Traced(ts: map<Path, Template>, stamps: map<Path, int>, answers: seq<Answer>, origin: map<Path, nat>)
  {
    && origin.Keys == ts.Keys == stamps.Keys
    && forall p :: p in ts ==> origin[p] < |answers| && Source(p, ts[p], stamps[p], answers[origin[p]])
  }

  ghost predicate Source(p: Path, t: Template, stamp: int, a: Answer)
  {
    && a.p == p && !a.hit && a.t == Some(t)
    && t.version == Version(a.asked, p) && stamp == Version(a.given, p) && Grown(a.asked, a.given)
  }

  lemma TracedHit(ts: map<Path, Template>, stamps: map<Path, int>, answers: seq<Answer>, origin: map<Path, nat>, a: Answer)
    requires Traced(ts, stamps, answers, origin) && a.p in ts && a.t == Some(ts[a.p])
    requires ModTime(a.asked, a.p) != 0 ==> stamps[a.p] == Version(a.asked, a.p)
    ensures Served(answers + [a], |answers|)
  {
    var c := answers[origin[a.p]];
    assert Source(a.p, ts[a.p], stamps[a.p], c);
    hide Grown, Versions, Version, ModTime, Traced;
    GrownSame(c.asked, c.given, a.p);
    assert HitOf(answers + [a], |answers|, origin[a.p]);
  }

  lemma TracedMore(ts: map<Path, Template>, stamps: map<Path, int>, answers: seq<Answer>, origin: map<Path, nat>, a: Answer)
    requires Traced(ts, stamps, answers, origin)
    ensures Traced(ts, stamps, answers + [a], origin)
  {
    hide Source;
  }

  lemma TracedWithout(ts: map<Path, Template>, stamps: map<Path, int>, answers: seq<Answer>, origin: map<Path, nat>, p: Path)
    requires Traced(ts, stamps, answers, origin)
    ensures Traced(ts - {p}, stamps - {p}, answers, origin - {p})
  {
    hide Source;
  }

  lemma TracedKept(ts: map<Path, Template>, stamps: map<Path, int>, answers: seq<Answer>, origin: map<Path, nat>, a: Answer)
    requires Traced(ts, stamps, answers, origin) && !a.hit && a.t.Some? && Grown(a.asked, a.given)
    requires a.t.value.version == Version(a.asked, a.p)
    ensures Traced(ts[a.p := a.t.value], stamps[a.p := Version(a.given, a.p)], answers + [a], origin[a.p := |answers|])
  {
    assert Source(a.p, a.t.value, Version(a.given, a.p), a);
    hide Source, Version;
  }

  lemma HitStays(answers: seq<Answer>, a: Answer, i: nat, j: nat)
    requires j < i < |answers| && HitOf(answers, i, j)
    ensures HitOf(answers + [a], i, j)
  {
  }

  lemma ServedMore(answers: seq<Answer>, a: Answer)
    requires forall i: nat :: i < |answers| && answers[i].hit ==> Served(answers, i)
    ensures forall i: nat :: i < |answers| && answers[i].hit ==> Served(answers + [a], i)
  {
    forall i: nat | i < |answers| && answers[i].hit ensures Served(answers + [a], i) {
      var j: nat :| j < i && HitOf(answers, i, j);
      HitStays(answers, a, i, j);
    }
  }

  /** Hit `i` serves what an earlier answer compiled. */
  ghost predicate Served(answers: seq<Answer>, i: nat)
    requires i < |answers|
  {
    exists j: nat :: j < i && HitOf(answers, i, j)
  }

  /** Every run: each hit serves what an earlier answer compiled, and is current or not as
      the writes during that answer decided. */
  method Serve(cache: Cache, requests: seq<Request>) returns (answers: seq<Answer>)
    requires cache.Valid() && cache.templates == map[] && WellDated(Final(cache.disk, requests))
    modifies cache
    ensures cache.Valid() && |answers| == |requests| && cache.disk == Final(old(cache.disk), requests)
    ensures forall i: nat :: i < |answers| ==> answers[i].p == requests[i].p
    ensures forall i: nat :: i < |answers| && answers[i].hit ==> Served(answers, i)
    ensures forall i: nat :: i < |answers| && !answers[i].hit ==>
              answers[i].t == if requests[i].compiles then Some(Template(Version(answers[i].asked, answers[i].p))) else None
  {
    hide Sound, TemplatesStamped, After, Versions, Version, ModTime, WellDated, Grown, Traced, Served, Final, Asked;
    answers := [];
    ghost var origin: map<Path, nat> := map[];
    TemplateKeys(cache.disk, cache.templates, cache.templateTimes, cache.stamps);
    NothingTraced(cache.stamps);
    assert requests[0..] == requests;
    var i := 0;
    while i < |requests|
      invariant 0 <= i <= |requests| && |answers| == i && cache.Valid()
      invariant Final(cache.disk, requests[i..]) == Final(old(cache.disk), requests)
      invariant Traced(cache.templates, cache.stamps, answers, origin)
      invariant forall k: nat :: k < i ==> answers[k].p == requests[k].p
      invariant forall k: nat :: k < i && answers[k].hit ==> Served(answers, k)
      invariant forall k: nat :: k < i && !answers[k].hit ==>
                  answers[k].t == if requests[k].compiles then Some(Template(Version(answers[k].asked, answers[k].p))) else None
    {
      DatedOnTheWay(cache.disk, requests[i..]);
      assert requests[i..][0] == requests[i] && requests[i..][1..] == requests[i + 1..];
      ghost var before := answers;
      var a;
      a, origin := ServeOne(cache, requests[i], answers, origin);
      answers := answers + [a];
      ServedMore(before, a);
      i := i + 1;
    }
    NothingLeft(cache.disk, requests, i);
  }

  lemma NothingLeft(disk: Disk, requests: seq<Request>, i: nat)
    requires i == |requests|
    ensures Final(disk, requests[i..]) == disk
  {
  }

  method ServeOne(cache: Cache, r: Request, ghost answers: seq<Answer>, ghost origin: map<Path, nat>)
    returns (a: Answer, ghost origin': map<Path, nat>)
    requires cache.Valid() && Traced(cache.templates, cache.stamps, answers, origin)
    requires WellDated(Asked(cache.disk, r)) && WellDated(After(Asked(cache.disk, r), r.during))
    modifies cache
    ensures cache.Valid() && cache.disk == After(Asked(old(cache.disk), r), r.during) && a.p == r.p
    ensures Traced(cache.templates, cache.stamps, answers + [a], origin')
    ensures a.hit ==> Served(answers + [a], |answers|)
    ensures !a.hit ==> a.t == if r.compiles then Some(Template(Version(a.asked, r.p))) else None
  {
    hide Sound, TemplatesStamped, After, Versions, Version, ModTime, WellDated, Grown, Traced, Served;
    cache.Others(r.before);
    var asked := cache.disk;
    ghost var ts, stamps := cache.templates, cache.stamps;
    var t, hit := cache.GetTemplate(r.p, r.during, r.compiles);
    a := Answer(r.p, hit, t, asked, cache.disk);
    if hit {
      TracedHit(ts, stamps, answers, origin, a);
      TracedMore(ts, stamps, answers, origin, a);
      origin' := origin;
    } else if r.compiles {
      TracedKept(ts, stamps, answers, origin, a);
      origin' := origin[r.p := |answers|];
    } else {
      TracedWithout(ts, stamps, answers, origin, r.p);
      TracedMore(cache.templates, cache.stamps, answers, origin - {r.p}, a);
      origin' := origin - {r.p};
    }
  }

  lemma NothingTraced(stamps: map<Path, int>)
    requires stamps.Keys == {}
    ensures Traced(map[], stamps, [], map[])
  {
  }

  lemma GrownSame(before: Disk, disk: Disk, p: Path)
    requires Grown(before, disk)
    ensures Version(disk, p) == Version(before, p) <==> Versions(disk, p) == Versions(before, p)
  {
  }

  lemma CachedIs(disk: Disk, c: Components, times: map<Path, int>, infos: Infos, handed: multiset<Addr>, p: Path)
    requires Counted(c, infos, handed) && Timed(disk, c, times, infos) && p in c
    ensures c[p] in infos && infos[c[p]].path == p && p in times && Stamped(disk, p, infos[c[p]].version, times[p])
  {
    hide Stamped;
  }

  lemma CachedAll(c: Components, infos: Infos, handed: multiset<Addr>)
    requires Counted(c, infos, handed)
    ensures forall q :: q in c ==> c[q] in infos && infos[c[q]].path == q
  {
  }

  lemma RefsPositive(c: Components, infos: Infos, handed: multiset<Addr>, a: Addr)
    requires Counted(c, infos, handed) && a in infos
    ensures infos[a].refs > 0
  {
  }

  lemma ReleaseTimed(disk: Disk, c: Components, times: map<Path, int>, infos: Infos, handed: multiset<Addr>, a: Addr)
    requires Counted(c, infos, handed) && Timed(disk, c, times, infos) && a in infos
    ensures Timed(disk, c, times, Released(infos, a))
  {
    hide Stamped;
  }

  lemma GrownVersion(before: Disk, disk: Disk, p: Path)
    requires Grown(before, disk)
    ensures Version(before, p) <= Version(disk, p)
  {
  }

  lemma CompileTimed(before: Disk, disk: Disk, c: Components, times: map<Path, int>, infos: Infos, a: Addr, p: Path)
    requires Timed(disk, c, times, infos) && Grown(before, disk) && ModTime(before, p) != 0 && a !in infos
    requires forall q :: q in c ==> c[q] in infos && infos[c[q]].path == q
    ensures Timed(disk, c[p := a], times[p := ModTime(before, p)], infos[a := Info(p, Version(disk, p), 2)])
  {
    var time := ModTime(before, p);
    assert Versions(disk, p)[Version(before, p)] == time;
    assert Stamped(disk, p, Version(disk, p), time);
    hide Stamped;
  }

  lemma OnlyHanded(disk: Disk, c: Components, times: map<Path, int>, infos: Infos, next: Addr,
                   handed: multiset<Addr>, compiled: int)
    requires Sound(disk, c, times, infos, next, handed, compiled) && c == map[]
    ensures compiled == 0 && forall a :: a in infos <==> a in handed
  {
    hide Timed, WellDated;
  }

  /** A file written while its first version was being compiled: the second read is a hit,
      under the new time, on what was compiled from the old version. */
  method StaleTemplate() returns (compiled: int, current: int, hit: bool)
    ensures hit && compiled == 0 && current == 1
  {
    hide Sound, Grown;
    var cache := new Cache();
    Scenario();
    cache.Others([Write("a", 1)]);
    var first, again;
    first, hit := cache.GetTemplate("a", [Write("a", 2)], true);
    again, hit := cache.GetTemplate("a", [], true);
    compiled, current := again.value.version, Version(cache.disk, "a");
  }

  lemma Scenario()
    ensures After(map[], [Write("a", 1)]) == map["a" := [1]] && WellDated(map["a" := [1]])
    ensures After(map["a" := [1]], [Write("a", 2)]) == map["a" := [1, 2]] && WellDated(map["a" := [1, 2]])
    ensures After(map["a" := [1, 2]], []) == map["a" := [1, 2]]
  {
    assert WellDated(map["a" := [1]]) && WellDated(map["a" := [1, 2]]);
    var none: Disk, d: Disk, e: Disk := map[], map["a" := [1]], map["a" := [1, 2]];
    hide WellDated;
    assert After(none, []) == none && After(d, []) == d && After(e, []) == e;
    assert Versions(none, "a") + [1] == [1] && Versions(d, "a") + [2] == [1, 2];
    assert none["a" := [1]] == d && d["a" := [1, 2]] == e;
    assert [Write("a", 1)][1..] == [] && [Write("a", 2)][1..] == [];
    assert After(none, [Write("a", 1)]) == After(none["a" := Versions(none, "a") + [1]], []);
    assert After(d, [Write("a", 2)]) == After(d["a" := Versions(d, "a") + [2]], []);
  }
}
