/** The splash effect system: a registry of splash templates loaded from a
    list file, and the set of live splash instances that a splash event
    spawns and every physics tick ages, animates and retires. Scene nodes,
    billboards and materials are reduced to the values the handler writes. */
module Splash {
  import opened Base

  // ---------------------------------------------------------------------
  // Splash kinds and the splash event

  /** The SplashTypes enumeration. */
  datatype SplashType = Invalid | Water | Ripple | WaterfallSplash | LavaBubble | Max

  /** The integer value of an enumerator (a C++ enum without initialisers). */
  function TypeValue(t: SplashType): int
  {
    match t
    case Invalid => 0
    case Water => 1
    case Ripple => 2
    case WaterfallSplash => 3
    case LavaBubble => 4
    case Max => 5
  }

  /** The enumerator with a given integer value, if any. */
  function TypeOf(v: int): (r: Option<SplashType>)
    ensures r.Some? <==> 0 <= v <= 5
    ensures r.Some? ==> TypeValue(r.value) == v
  {
    if v == 0 then Some(Invalid)
    else if v == 1 then Some(Water)
    else if v == 2 then Some(Ripple)
    else if v == 3 then Some(WaterfallSplash)
    else if v == 4 then Some(LavaBubble)
    else if v == 5 then Some(Max)
    else None
  }

  /** The enumerators are numbered 0..5 in declaration order, so the integer
      value identifies the enumerator. */
  lemma TypeValueRoundTrip(t: SplashType)
    ensures 0 <= TypeValue(t) <= 5
    ensures TypeOf(TypeValue(t)) == Some(t)
    ensures t == Ripple <==> TypeValue(t) == 2
  {
  }

  /** E_SPLASH: a position, a direction and the splash type as an integer. */
  datatype SplashEvent = SplashEvent(pos: Vec3, dir: Vec3, type1: int)

  // ---------------------------------------------------------------------
  // SplashData: configuration part and runtime part

  /** The configuration of a splash, from `matFile` to `faceCamMode`. */
  datatype SplashConfig = SplashConfig(
    matFile: string,
    splashType: int,
    maxImages: int,
    totalDuration: U32,
    timePerFrame: U32,
    uOffset: real,
    vOffset: real,
    uIncrPerFrame: real,
    vIncrPerFrame: real,
    scaleRate: Vec3,
    transparencyRate: real,
    pos: Vec3,
    direction: Vec3,
    scale: Vec3,
    faceCamMode: U32)

  /** The single billboard of a Ripple splash and the alpha of its cloned
      material's diffuse colour. */
  datatype Billboard = Billboard(width: real, height: real, enabled: bool, alpha: real, faceCamMode: U32)

  /** The scene node created for a live splash. */
  datatype SplashNode = SplashNode(position: Vec3, direction: Vec3, billboard: Option<Billboard>)

  /** A SplashData object: its configuration and its runtime fields
      (`elapsedTime`, `curImageIdx`, `uCur`, `vCur` and the node). */
  datatype SplashData = SplashData(
    config: SplashConfig,
    elapsedTime: U32,
    curImageIdx: int,
    uCur: real,
    vCur: real,
    node: Option<SplashNode>)

  const DefaultConfig: SplashConfig :=
    SplashConfig("", 0, 0, 0, 0, 0.0, 0.0, 0.0, 0.0, Zero3, 0.0, Zero3, Zero3, One3, 0)

  /** The SplashData constructor: every counter zero, scale one, no node. */
  const NewSplashData: SplashData := SplashData(DefaultConfig, 0, 0, 0.0, 0.0, None)

  /** SplashData::Copy: takes every configuration field of `src` and keeps
      the runtime fields of `dst`; the result is the updated `dst`. */
  function Copy(dst: SplashData, src: SplashData): (r: SplashData)
    ensures r.config == src.config
    ensures r.elapsedTime == dst.elapsedTime && r.curImageIdx == dst.curImageIdx
    ensures r.uCur == dst.uCur && r.vCur == dst.vCur && r.node == dst.node
  {
    dst.(config := src.config)
  }

  // ---------------------------------------------------------------------
  // The splash list file and template registration

  /** The ten string attributes of a SplashDataList. */
  datatype SplashDataList = SplashDataList(
    item00: string, item01: string, item02: string, item03: string, item04: string,
    item05: string, item06: string, item07: string, item08: string, item09: string)

  /** SplashDataList::LoadXML: fails when the attribute load fails, otherwise
      exposes the ten items in order. `baseLoaded` is the outcome of the
      inherited attribute load. */
  function ListLoadXml(baseLoaded: bool, d: SplashDataList): (r: Option<seq<string>>)
    ensures r.Some? <==> baseLoaded
    ensures r.Some? ==> |r.value| == 10
    ensures r.Some? ==> r.value[0] == d.item00 && r.value[1] == d.item01 && r.value[2] == d.item02
    ensures r.Some? ==> r.value[3] == d.item03 && r.value[4] == d.item04 && r.value[5] == d.item05
    ensures r.Some? ==> r.value[6] == d.item06 && r.value[7] == d.item07 && r.value[8] == d.item08
    ensures r.Some? ==> r.value[9] == d.item09
  {
    if !baseLoaded then None
    else
      var slots := [d.item00, d.item01, d.item02, d.item03, d.item04,
                    d.item05, d.item06, d.item07, d.item08, d.item09];
      Some(slots)
  }

  /** The list file as the resource cache yields it: the outcome of the
      attribute load and the attribute values. */
  datatype ListFile = ListFile(baseLoaded: bool, items: SplashDataList)

  /** What the resource cache yields for a template file that it resolves:
      a parsed configuration, or a file whose attribute load fails. A name
      that is not a key of the cache map does not resolve. */
  datatype TemplateFile = Parsed(config: SplashConfig) | Unparsable

  /** A list entry that yields a template: non-empty, resolved and loaded. */
  predicate Usable(name: string, cache: map<string, TemplateFile>)
  {
    name != "" && name in cache && cache[name].Parsed?
  }

  /** A freshly registered template: a new SplashData with the loaded configuration. */
  function Template(c: SplashConfig): SplashData
  {
    NewSplashData.(config := c)
  }

  /** The templates a list of entries registers, in list order. */
  function Templates(names: seq<string>, cache: map<string, TemplateFile>): seq<SplashData>
  {
    if |names| == 0 then []
    else
      var last := names[|names| - 1];
      Templates(names[..|names| - 1], cache)
        + (if Usable(last, cache) then [Template(cache[last].config)] else [])
  }

  /** Registration respects list order: the entries of a concatenated list
      register the templates of the first part, then those of the second. */
  lemma {:induction false} TemplatesAppend(a: seq<string>, b: seq<string>, cache: map<string, TemplateFile>)
    ensures Templates(a + b, cache) == Templates(a, cache) + Templates(b, cache)
    decreases |b|
  {
    if |b| == 0 {
      assert a + b == a;
    } else {
      var b' := b[..|b| - 1];
      TemplatesAppend(a, b', cache);
      assert (a + b)[..|a + b| - 1] == a + b';
    }
  }

  /** One entry registers exactly one template when it is usable, none otherwise. */
  lemma TemplatesSingle(name: string, cache: map<string, TemplateFile>)
    ensures Usable(name, cache) ==> Templates([name], cache) == [Template(cache[name].config)]
    ensures !Usable(name, cache) ==> Templates([name], cache) == []
  {
    assert [name][..0] == [];
  }

  /** SplashHandler: registered templates and live instances are separate
      lists; `subscribed` records the subscription to E_SPLASH. */
  datatype SplashHandler = SplashHandler(registered: seq<SplashData>, active: seq<SplashData>, subscribed: bool)

  const EmptyHandler: SplashHandler := SplashHandler([], [], false)

  /** SplashHandler::LoadSplashList. `listFile` is None when the cache does
      not resolve the list file; `cache` resolves the template files. */
  method LoadSplashList(h: SplashHandler, listFile: Option<ListFile>, cache: map<string, TemplateFile>)
    returns (h': SplashHandler, ok: bool)
    ensures ok
    ensures h'.active == h.active
    ensures var items := if listFile.Some? then ListLoadXml(listFile.value.baseLoaded, listFile.value.items) else None;
            h'.registered == h.registered + (if items.Some? then Templates(items.value, cache) else [])
    ensures h'.subscribed <==> h.subscribed || |h'.registered| > 0
  {
    var items := if listFile.Some? then ListLoadXml(listFile.value.baseLoaded, listFile.value.items) else None;
    var registered := h.registered;
    if items.Some? {
      var names := items.value;
      var i := 0;
      while i < |names|
        invariant 0 <= i <= |names|
        invariant registered == h.registered + Templates(names[..i], cache)
      {
        var name := names[i];
        if name != "" {
          if name in cache {
            if cache[name].Parsed? {
              registered := registered + [Template(cache[name].config)];
            }
          }
        }
        assert names[..i + 1][..i] == names[..i];
        i := i + 1;
      }
      assert names[..i] == names;
    }
    h' := h.(registered := registered, subscribed := h.subscribed || |registered| > 0);
    ok := true;
  }

  // ---------------------------------------------------------------------
  // Spawning

  /** Index of the first registered template at or after `from` whose type is `t`. */
  function FindTemplate(reg: seq<SplashData>, t: int, from: nat): (r: Option<nat>)
    requires from <= |reg|
    ensures r.Some? ==> from <= r.value < |reg| && reg[r.value].config.splashType == t
    ensures r.Some? ==> forall j :: from <= j < r.value ==> reg[j].config.splashType != t
    ensures r.None? ==> forall j :: from <= j < |reg| ==> reg[j].config.splashType != t
    decreases |reg| - from
  {
    if from == |reg| then None
    else if reg[from].config.splashType == t then Some(from)
    else FindTemplate(reg, t, from + 1)
  }

  /** SplashHandler::CreateDrawableObj: a Ripple splash gets one enabled
      billboard sized from `scale`, whose cloned material has alpha
      `matAlpha`; the other kinds get nothing. It always reports success. */
  function CreateDrawableObj(d: SplashData, matAlpha: real): (r: (bool, SplashData))
    requires d.node.Some?
    ensures r.0
    ensures r.1.config == d.config && r.1.elapsedTime == d.elapsedTime
    ensures r.1.node.Some? && r.1.node.value.position == d.node.value.position
    ensures r.1.node.value.direction == d.node.value.direction
    ensures r.1.node.value.billboard.Some? <==> d.config.splashType == TypeValue(Ripple) || d.node.value.billboard.Some?
    ensures d.config.splashType == TypeValue(Ripple) ==>
      r.1.node.value.billboard == Some(Billboard(d.config.scale.x, d.config.scale.y, true, matAlpha, d.config.faceCamMode))
  {
    if d.config.splashType == TypeValue(Ripple) then
      var bb := Billboard(d.config.scale.x, d.config.scale.y, true, matAlpha, d.config.faceCamMode);
      (true, d.(node := Some(d.node.value.(billboard := Some(bb)))))
    else (true, d)
  }

  /** The instance spawned from `template` by event `ev`: a copy of the
      template's configuration with fresh runtime fields, on a new node at
      the event position facing down. */
  function Spawn(template: SplashData, ev: SplashEvent, matAlpha: real): (r: SplashData)
    ensures r.config == template.config
    ensures r.elapsedTime == 0
    ensures r.node.Some? && r.node.value.position == ev.pos && r.node.value.direction == Down3
  {
    var d := Copy(NewSplashData, template);
    var placed := d.(node := Some(SplashNode(ev.pos, Down3, None)));
    CreateDrawableObj(placed, matAlpha).1
  }

  /** SplashHandler::HandleSplashEvent. `matAlpha` is the alpha of the
      material a Ripple billboard clones. */
  function HandleSplashEvent(h: SplashHandler, ev: SplashEvent, matAlpha: real): (h': SplashHandler)
    ensures h'.registered == h.registered && h'.subscribed == h.subscribed
    ensures |h.active| <= |h'.active| <= |h.active| + 1
    ensures h'.active[..|h.active|] == h.active
    ensures |h'.active| == |h.active| + 1 <==>
      exists i :: 0 <= i < |h.registered| && h.registered[i].config.splashType == ev.type1
    ensures |h'.active| == |h.active| + 1 ==>
      exists i :: 0 <= i < |h.registered| && h.registered[i].config.splashType == ev.type1
        && (forall j :: 0 <= j < i ==> h.registered[j].config.splashType != ev.type1)
        && h'.active[|h.active|] == Spawn(h.registered[i], ev, matAlpha)
  {
    match FindTemplate(h.registered, ev.type1, 0)
    case None => h
    case Some(i) => h.(active := h.active + [Spawn(h.registered[i], ev, matAlpha)])
  }

  /** Delivery of E_SPLASH: only a subscribed handler receives it. */
  function Dispatch(h: SplashHandler, ev: SplashEvent, matAlpha: real): (h': SplashHandler)
    ensures !h.subscribed ==> h' == h
    ensures |h.registered| == 0 ==> h'.active == h.active
  {
    if h.subscribed then HandleSplashEvent(h, ev, matAlpha) else h
  }

  // ---------------------------------------------------------------------
  // Per-tick update

  /** `(unsigned)(timeStep * 1000.0f)`: the tick length in whole milliseconds,
      truncated. The conversion is defined only for values that fit. */
  function TickMs(timeStep: real): (ms: U32)
    requires 0.0 <= timeStep && timeStep * 1000.0 < TwoTo32 as real
    ensures ms as real <= timeStep * 1000.0 < ms as real + 1.0
  {
    (timeStep * 1000.0).Floor
  }

  predicate Expired(d: SplashData)
  {
    d.elapsedTime > d.config.totalDuration
  }

  function BillboardOf(d: SplashData): Option<Billboard>
  {
    if d.node.Some? then d.node.value.billboard else None
  }

  /** The Ripple animation step: billboard size scaled componentwise by the
      x and y of `scaleRate`, material alpha scaled by `transparencyRate`.
      The other kinds, and values outside the enumeration, change nothing. */
  function UpdateVisual(d: SplashData): (r: SplashData)
    ensures r.config == d.config && r.elapsedTime == d.elapsedTime
    ensures d.config.splashType != TypeValue(Ripple) ==> r == d
    ensures r.node.Some? <==> d.node.Some?
    ensures r.node.Some? ==> r.node.value.position == d.node.value.position
    ensures r.node.Some? ==> r.node.value.direction == d.node.value.direction
    ensures BillboardOf(r).Some? <==> BillboardOf(d).Some?
    ensures d.config.splashType == TypeValue(Ripple) && BillboardOf(d).Some? ==>
      var b, b' := BillboardOf(d).value, BillboardOf(r).value;
      && b'.width == b.width * d.config.scaleRate.x
      && b'.height == b.height * d.config.scaleRate.y
      && b'.alpha == b.alpha * d.config.transparencyRate
      && b'.enabled == b.enabled && b'.faceCamMode == b.faceCamMode
  {
    if d.config.splashType == TypeValue(Ripple) && d.node.Some? && d.node.value.billboard.Some? then
      var n := d.node.value;
      var b := n.billboard.value;
      d.(node := Some(n.(billboard := Some(b.(
        width := b.width * d.config.scaleRate.x,
        height := b.height * d.config.scaleRate.y,
        alpha := b.alpha * d.config.transparencyRate)))))
    else d
  }

  /** One instance in the first loop of FixedUpdate: elapsed time grows by
      the tick (wrapping at 2^32); the visual update is skipped once the
      instance is past its duration. */
  function Age(d: SplashData, deltaMs: U32): (r: SplashData)
    ensures r.config == d.config
    ensures r.elapsedTime == AddU32(d.elapsedTime, deltaMs)
    ensures d.elapsedTime + deltaMs < TwoTo32 ==> r.elapsedTime >= d.elapsedTime
    ensures Expired(r) ==> r.node == d.node
  {
    var e := d.(elapsedTime := AddU32(d.elapsedTime, deltaMs));
    if Expired(e) then e else UpdateVisual(e)
  }

  function AgeAll(active: seq<SplashData>, deltaMs: U32): (r: seq<SplashData>)
    ensures |r| == |active|
    ensures forall i :: 0 <= i < |active| ==> r[i] == Age(active[i], deltaMs)
  {
    seq(|active|, i requires 0 <= i < |active| => Age(active[i], deltaMs))
  }

  /** The instances that survive the sweep, in their original order. */
  function Live(s: seq<SplashData>): seq<SplashData>
  {
    if |s| == 0 then []
    else Live(s[..|s| - 1]) + (if Expired(s[|s| - 1]) then [] else [s[|s| - 1]])
  }

  /** The sweep keeps exactly the instances that are not expired. */
  lemma {:induction false} LiveMembers(s: seq<SplashData>)
    ensures forall d :: d in Live(s) <==> d in s && !Expired(d)
    decreases |s|
  {
    if |s| > 0 {
      var init := s[..|s| - 1];
      LiveMembers(init);
      assert s == init + [s[|s| - 1]];
    }
  }

  /** The sweep keeps relative order: it distributes over concatenation. */
  lemma {:induction false} LiveAppend(a: seq<SplashData>, b: seq<SplashData>)
    ensures Live(a + b) == Live(a) + Live(b)
    decreases |b|
  {
    if |b| == 0 {
      assert a + b == a;
    } else {
      var b' := b[..|b| - 1];
      LiveAppend(a, b');
      assert (a + b)[..|a + b| - 1] == a + b';
    }
  }

  /** One step of the sweep on the list `Live(active[..k]) + active[k..]`,
      examining the element at index `|Live(active[..k])|`. */
  lemma SweepStep(active: seq<SplashData>, k: nat, kept: seq<SplashData>)
    requires k < |active|
    requires kept == Live(active[..k]) + active[k..]
    ensures var i := |Live(active[..k])|;
      i < |kept| && kept[i] == active[k]
      && (Expired(active[k]) ==> kept[..i] + kept[i + 1..] == Live(active[..k + 1]) + active[k + 1..])
      && (Expired(active[k]) ==> |Live(active[..k + 1])| == i)
      && (!Expired(active[k]) ==> kept == Live(active[..k + 1]) + active[k + 1..])
      && (!Expired(active[k]) ==> |Live(active[..k + 1])| == i + 1)
  {
    var x := active[k];
    var rest := active[k + 1..];
    assert active[k..] == [x] + rest;
    LiveExtend(active, k);
    RemoveAt(Live(active[..k]), x, rest);
    if !Expired(x) {
      assert kept == (Live(active[..k]) + [x]) + rest;
    }
  }

  /** The sweep of one more element extends the sweep of the prefix. */
  lemma LiveExtend(active: seq<SplashData>, k: nat)
    requires k < |active|
    ensures Live(active[..k + 1]) == Live(active[..k]) + (if Expired(active[k]) then [] else [active[k]])
  {
    assert active[..k + 1][..k] == active[..k];
  }

  /** Erasing the element that follows `front` leaves `front + rest`. */
  lemma RemoveAt(front: seq<SplashData>, x: SplashData, rest: seq<SplashData>)
    ensures var s := front + ([x] + rest);
      |front| < |s| && s[|front|] == x && s[..|front|] + s[|front| + 1..] == front + rest
  {
    var s := front + ([x] + rest);
    assert s[..|front|] == front;
    assert s[|front| + 1..] == rest;
  }

  function DecU32(i: U32): U32 { (i + TwoTo32 - 1) % TwoTo32 }

  function IncU32(i: U32): U32 { (i + 1) % TwoTo32 }

  /** `--i` followed by `++i` restores every unsigned index, 0 included. */
  lemma DecThenInc(i: U32)
    ensures IncU32(DecU32(i)) == i
  {
    if i == 0 {
      assert DecU32(i) == TwoTo32 - 1;
    } else {
      assert DecU32(i) == i - 1;
    }
  }

  /** Below 2^32 - 1, `++i` is the plain successor. */
  lemma IncBelowWrap(i: U32)
    requires i + 1 < TwoTo32
    ensures IncU32(i) == i + 1
  {
  }

  /** The removal loop of FixedUpdate: erase at `i`, then `--i` on an
      unsigned index, which wraps from 0 to 2^32-1 so that the loop's `++i`
      brings it back to 0 and no element is skipped. */
  method SweepExpired(active: seq<SplashData>) returns (kept: seq<SplashData>)
    requires |active| < TwoTo32
    ensures kept == Live(active)
  {
    kept := active;
    var i: U32 := 0;
    ghost var k := 0;
    while i < |kept|
      invariant 0 <= k <= |active|
      invariant kept == Live(active[..k]) + active[k..]
      invariant i == |Live(active[..k])| && i <= k
      decreases |active| - k
    {
      SweepStep(active, k, kept);
      if Expired(kept[i]) {
        kept := kept[..i] + kept[i + 1..];
        DecThenInc(i);
        i := DecU32(i);
      } else {
        IncBelowWrap(i);
      }
      i := IncU32(i);
      k := k + 1;
    }
    assert k == |active| by {
      assert |kept| == |Live(active[..k])| + |active| - k;
    }
    assert active[..k] == active;
  }

  /** The handler after one tick: every instance aged, then the expired ones removed. */
  function Tick(h: SplashHandler, deltaMs: U32): SplashHandler
  {
    h.(active := Live(AgeAll(h.active, deltaMs)))
  }

  /** SplashHandler::FixedUpdate. */
  method FixedUpdate(h: SplashHandler, timeStep: real) returns (h': SplashHandler)
    requires |h.active| < TwoTo32
    requires 0.0 <= timeStep && timeStep * 1000.0 < TwoTo32 as real
    ensures h' == Tick(h, TickMs(timeStep))
    ensures h'.registered == h.registered && h'.subscribed == h.subscribed
    ensures forall d :: d in h'.active ==> !Expired(d)
    ensures forall i :: 0 <= i < |h.active| && !Expired(Age(h.active[i], TickMs(timeStep))) ==>
      Age(h.active[i], TickMs(timeStep)) in h'.active
  {
    var aged := AgeAll(h.active, TickMs(timeStep));
    var kept := SweepExpired(aged);
    LiveMembers(aged);
    h' := h.(active := kept);
  }

  // ---------------------------------------------------------------------
  // The update as written, for the non-Ripple kinds

  datatype Fault = NullBillboardSet

  /** The visual update as the source writes it: the billboard set of the
      node is fetched and dereferenced before the switch on the kind, so a
      live instance whose node has no billboard dereferences null. Only
      Ripple instances get a billboard. */
  function UpdateVisualAsWritten(d: SplashData): (r: Result<SplashData, Fault>)
    ensures r.Err? <==> d.node.None? || d.node.value.billboard.None?
    ensures r.Ok? ==> r.value == UpdateVisual(d)
  {
    if d.node.None? || d.node.value.billboard.None? then Err(NullBillboardSet)
    else Ok(UpdateVisual(d))
  }

  /** A Water splash spawned by an event and aged by one tick within its
      duration reaches the null dereference. */
  lemma WaterSplashFaults()
    ensures var t := Template(DefaultConfig.(splashType := TypeValue(Water), totalDuration := 500));
            var d := Spawn(t, SplashEvent(Zero3, Zero3, TypeValue(Water)), 1.0);
            var e := d.(elapsedTime := AddU32(d.elapsedTime, 16));
            !Expired(e) && UpdateVisualAsWritten(e) == Err(NullBillboardSet)
  {
  }

  /** The corrected update agrees with the source for every spawned Ripple
      instance, and it leaves every other kind unchanged instead of faulting. */
  lemma UpdateVisualCorrected(t: SplashData, ev: SplashEvent, matAlpha: real)
    ensures var d := Spawn(t, ev, matAlpha);
            t.config.splashType == TypeValue(Ripple) ==> UpdateVisualAsWritten(d) == Ok(UpdateVisual(d))
    ensures var d := Spawn(t, ev, matAlpha);
            t.config.splashType != TypeValue(Ripple) ==> UpdateVisual(d) == d
  {
  }
}
