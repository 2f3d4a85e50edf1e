/**
  Properties that span components: a footstep of the character in water
  reaches the splash handler as a Ripple event, and the splash it spawns
  lives exactly as long as its configured duration.
*/
module Scenarios {
  import opened Base
  import opened Text
  import Splash
  import Character

  /** The last instance of a handler's live list. */
  function Newest(h: Splash.SplashHandler): Splash.SplashData
    requires |h.active| > 0
  {
    h.active[|h.active| - 1]
  }

  /** A footstep trigger while the character stands in water, delivered to a
      subscribed handler that has a Ripple template, spawns one Ripple
      instance at the foot, level with the water surface, carrying an
      enabled billboard whose material has the given alpha. */
  lemma FootstepSpawnsRipple(h: Splash.SplashHandler, s: Character.CharacterState, action: string,
                             foot: Vec3, forward: Vec3, matAlpha: real)
    requires exists i :: MatchesAt(action, "foot", i)
    requires s.inWater && h.subscribed
    requires exists i :: 0 <= i < |h.registered| && h.registered[i].config.splashType == Splash.TypeValue(Splash.Ripple)
    ensures var ev := Character.HandleAnimationTrigger(s, action, Some(foot), forward);
            ev.Some?
            && var h' := Splash.Dispatch(h, ev.value, matAlpha);
            && |h'.active| == |h.active| + 1
            && h'.active[..|h.active|] == h.active
            && Newest(h').config.splashType == Splash.TypeValue(Splash.Ripple)
            && Newest(h').elapsedTime == 0
            && Newest(h').node.Some?
            && Newest(h').node.value.position == Vec3(foot.x, s.waterContact.y, foot.z)
            && Splash.BillboardOf(Newest(h')).Some?
            && Splash.BillboardOf(Newest(h')).value.enabled
            && Splash.BillboardOf(Newest(h')).value.alpha == matAlpha
  {
    var ev := Character.HandleAnimationTrigger(s, action, Some(foot), forward);
    assert ev.Some?;
    var h' := Splash.HandleSplashEvent(h, ev.value, matAlpha);
    assert |h'.active| == |h.active| + 1;
    var i :| 0 <= i < |h.registered| && h.registered[i].config.splashType == ev.value.type1
        && (forall j :: 0 <= j < i ==> h.registered[j].config.splashType != ev.value.type1)
        && h'.active[|h.active|] == Splash.Spawn(h.registered[i], ev.value, matAlpha);
  }

  /** A handler whose only live instance was just spawned. */
  predicate Fresh(h: Splash.SplashHandler)
  {
    |h.active| == 1 && h.active[0].elapsedTime == 0
  }

  /** A fresh splash survives ticks that add up to at most its duration and
      is removed by the tick that takes it past its duration. */
  lemma SplashLifetime(h: Splash.SplashHandler, m1: U32, m2: U32)
    requires Fresh(h)
    requires m1 <= h.active[0].config.totalDuration < m1 + m2 < TwoTo32
    ensures var h1 := Splash.Tick(h, m1);
            |h1.active| == 1
            && h1.active[0].config == h.active[0].config
            && h1.active[0].elapsedTime == m1
            && Splash.Tick(h1, m2).active == []
  {
    var d := h.active[0];
    var a1 := Splash.AgeAll(h.active, m1);
    assert a1 == [Splash.Age(d, m1)];
    assert !Splash.Expired(a1[0]);
    assert Splash.Live(a1) == Splash.Live([]) + [a1[0]] by {
      assert a1[..0] == [];
    }
    var h1 := Splash.Tick(h, m1);
    assert h1.active == [a1[0]];
    var a2 := Splash.AgeAll(h1.active, m2);
    assert a2 == [Splash.Age(a1[0], m2)];
    assert Splash.Expired(a2[0]);
    assert Splash.Live(a2) == Splash.Live([]) by {
      assert a2[..0] == [];
    }
  }

  /** A footstep splash in water is still live after
      one tick within its duration and gone once the ticks exceed it. */
  lemma FootstepSplashExpires(s: Character.CharacterState, action: string, foot: Vec3, forward: Vec3,
                              template: Splash.SplashData, matAlpha: real, m1: U32, m2: U32)
    requires exists i :: MatchesAt(action, "foot", i)
    requires s.inWater
    requires template.config.splashType == Splash.TypeValue(Splash.Ripple)
    requires m1 <= template.config.totalDuration < m1 + m2 < TwoTo32
    ensures var h := Splash.SplashHandler([template], [], true);
            var ev := Character.HandleAnimationTrigger(s, action, Some(foot), forward);
            ev.Some?
            && var h0 := Splash.Dispatch(h, ev.value, matAlpha);
            && |Splash.Tick(h0, m1).active| == 1
            && Splash.Tick(Splash.Tick(h0, m1), m2).active == []
  {
    var h := Splash.SplashHandler([template], [], true);
    assert h.registered[0].config.splashType == Splash.TypeValue(Splash.Ripple);
    FootstepSpawnsRipple(h, s, action, foot, forward, matAlpha);
    var ev := Character.HandleAnimationTrigger(s, action, Some(foot), forward);
    var h0 := Splash.Dispatch(h, ev.value, matAlpha);
    assert h0.active[0].config == template.config;
    SplashLifetime(h0, m1, m2);
  }
}
