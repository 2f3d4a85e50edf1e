/** The player character's per-physics-tick controller: contact decoding and
    ground/water latching from collision callbacks, the in-air timer and
    soft-grounded window, the jump edge detector, the animation-clip choice,
    the footstep splash, and the end-of-tick latch reset. Physics vectors
    are reduced to the guards that select them; the raycast, the animation
    controller's at-end query and node lookups are inputs. */
module Character {
  import opened Base
  import opened Text
  import Splash

  /** MAX_STEPDOWN_HEIGHT. */
  const MaxStepDownHeight: real := 0.5
  /** INAIR_THRESHOLD_TIME: a tenth of a second. */
  const InAirThresholdTime: real := 0.1
  /** A contact counts only below the node centre plus this height. */
  const ContactHeightLimit: real := 1.0
  /** A contact normal steeper than this (its y component) is ground. */
  const GroundNormalY: real := 0.75

  // ---------------------------------------------------------------------
  // Contact buffer

  /** One contact record: position, normal, distance, impulse. */
  datatype Contact = Contact(position: Vec3, normal: Vec3, distance: real, impulse: real)

  /** Each record is eight 32-bit floats; the buffer is modelled as a
      sequence of those float words. */
  const ContactWords: nat := 8

  function EncodeContacts(cs: seq<Contact>): (buf: seq<real>)
    ensures |buf| == ContactWords * |cs|
  {
    if |cs| == 0 then []
    else
      var c := cs[0];
      [c.position.x, c.position.y, c.position.z, c.normal.x, c.normal.y, c.normal.z, c.distance, c.impulse]
        + EncodeContacts(cs[1..])
  }

  /** Reads records until the end of the buffer. */
  function DecodeContacts(buf: seq<real>): (cs: seq<Contact>)
    requires |buf| % ContactWords == 0
    ensures |cs| == |buf| / ContactWords
    decreases |buf|
  {
    if |buf| == 0 then []
    else
      [Contact(Vec3(buf[0], buf[1], buf[2]), Vec3(buf[3], buf[4], buf[5]), buf[6], buf[7])]
        + DecodeContacts(buf[ContactWords..])
  }

  /** Decoding recovers every record that was encoded. */
  lemma {:induction false} DecodeEncode(cs: seq<Contact>)
    ensures DecodeContacts(EncodeContacts(cs)) == cs
  {
    if |cs| > 0 {
      var buf := EncodeContacts(cs);
      assert buf[ContactWords..] == EncodeContacts(cs[1..]);
      DecodeEncode(cs[1..]);
      assert cs == [cs[0]] + cs[1..];
    }
  }

  /** Encoding the decoded records gives the buffer back: no word is skipped. */
  lemma {:induction false} EncodeDecode(buf: seq<real>)
    requires |buf| % ContactWords == 0
    ensures EncodeContacts(DecodeContacts(buf)) == buf
    decreases |buf|
  {
    if |buf| > 0 {
      var cs := DecodeContacts(buf);
      EncodeDecode(buf[ContactWords..]);
      assert cs[1..] == DecodeContacts(buf[ContactWords..]);
      assert buf == buf[..ContactWords] + buf[ContactWords..];
    }
  }

  // ---------------------------------------------------------------------
  // Character state

  datatype CharacterState = CharacterState(
    onGround: bool,
    okToJump: bool,
    inAirTimer: real,
    jumpStarted: bool,
    isJumping: bool,
    inWater: bool,
    waterContact: Vec3)

  /** The state the constructor leaves: not grounded, jump armed, timer zero. */
  const InitialState: CharacterState := CharacterState(false, true, 0.0, false, false, false, Zero3)

  /** The body the character collided with: whether it is a trigger and
      whether it is on the water collision layer. */
  datatype OtherBody = OtherBody(isTrigger: bool, onWaterLayer: bool)

  predicate BelowHead(c: Contact, nodeY: real)
  {
    c.position.y < nodeY + ContactHeightLimit
  }

  predicate Standable(c: Contact)
  {
    c.normal.y > GroundNormalY
  }

  /** Some contact below the head stands on ground. */
  predicate GroundContact(cs: seq<Contact>, nodeY: real)
  {
    exists i :: 0 <= i < |cs| && BelowHead(cs[i], nodeY) && Standable(cs[i])
  }

  /** Contact `i` is the first one below the head. */
  predicate FirstBelowHead(cs: seq<Contact>, nodeY: real, i: int)
  {
    0 <= i < |cs| && BelowHead(cs[i], nodeY) && forall j :: 0 <= j < i ==> !BelowHead(cs[j], nodeY)
  }

  predicate NoneBelowHead(cs: seq<Contact>, nodeY: real)
  {
    forall i :: 0 <= i < |cs| ==> !BelowHead(cs[i], nodeY)
  }

  /** The contact loop: for water the first contact below the head is
      stored and the loop stops; for a solid body every contact is read. */
  function ScanContacts(s: CharacterState, isWater: bool, nodeY: real, cs: seq<Contact>): CharacterState
    decreases |cs|
  {
    if |cs| == 0 then s
    else if BelowHead(cs[0], nodeY) && isWater then
      s.(waterContact := cs[0].position, inWater := true)
    else if BelowHead(cs[0], nodeY) && Standable(cs[0]) then
      ScanContacts(s.(onGround := true), isWater, nodeY, cs[1..])
    else
      ScanContacts(s, isWater, nodeY, cs[1..])
  }

  /** On a solid body the ground latch is set exactly when some contact below
      the head has a steep enough normal; nothing else changes. */
  lemma {:induction false} ScanSolid(s: CharacterState, nodeY: real, cs: seq<Contact>)
    ensures var r := ScanContacts(s, false, nodeY, cs);
      && (r.onGround <==> s.onGround || GroundContact(cs, nodeY))
      && r == s.(onGround := r.onGround)
    decreases |cs|
  {
    if |cs| > 0 {
      var s' := if BelowHead(cs[0], nodeY) && Standable(cs[0]) then s.(onGround := true) else s;
      ScanSolid(s', nodeY, cs[1..]);
      var r := ScanContacts(s, false, nodeY, cs);
      if r.onGround && !s.onGround && !(BelowHead(cs[0], nodeY) && Standable(cs[0])) {
        var i :| 0 <= i < |cs[1..]| && BelowHead(cs[1..][i], nodeY) && Standable(cs[1..][i]);
        assert cs[i + 1] == cs[1..][i];
      }
      if exists i :: 0 <= i < |cs| && BelowHead(cs[i], nodeY) && Standable(cs[i]) {
        var i :| 0 <= i < |cs| && BelowHead(cs[i], nodeY) && Standable(cs[i]);
        if i > 0 {
          assert cs[1..][i - 1] == cs[i];
        }
      }
    }
  }

  /** In water the first contact below the head is latched, the ground latch
      is untouched, and with no such contact nothing changes. */
  lemma {:induction false} ScanWater(s: CharacterState, nodeY: real, cs: seq<Contact>)
    ensures var r := ScanContacts(s, true, nodeY, cs);
      && r == s.(inWater := r.inWater, waterContact := r.waterContact)
      && (s.inWater ==> r.inWater)
      && (NoneBelowHead(cs, nodeY) ==> r == s)
      && (forall i :: FirstBelowHead(cs, nodeY, i) ==> r == s.(inWater := true, waterContact := cs[i].position))
    decreases |cs|
  {
    if |cs| > 0 && !BelowHead(cs[0], nodeY) {
      ScanWater(s, nodeY, cs[1..]);
      var r := ScanContacts(s, true, nodeY, cs);
      forall i | FirstBelowHead(cs, nodeY, i)
        ensures r == s.(inWater := true, waterContact := cs[i].position)
      {
        assert i > 0;
        assert cs[1..][i - 1] == cs[i];
        forall j | 0 <= j < i - 1 ensures !BelowHead(cs[1..][j], nodeY) {
          assert cs[1..][j] == cs[j + 1];
        }
        assert FirstBelowHead(cs[1..], nodeY, i - 1);
      }
      if NoneBelowHead(cs, nodeY) {
        forall j | 0 <= j < |cs[1..]| ensures !BelowHead(cs[1..][j], nodeY) {
          assert cs[1..][j] == cs[j + 1];
        }
      }
    }
  }

  /** Character::HandleNodeCollision. `nodeY` is the height of the node
      centre; `buf` the contact buffer of the collision. */
  function HandleNodeCollision(s: CharacterState, other: OtherBody, nodeY: real, buf: seq<real>): (r: CharacterState)
    requires |buf| % ContactWords == 0
    // a trigger that is not water is ignored
    ensures other.isTrigger && !other.onWaterLayer ==> r == s
    // the latches are only ever set here, never cleared
    ensures s.onGround ==> r.onGround
    ensures s.inWater ==> r.inWater
    ensures r.okToJump == s.okToJump && r.inAirTimer == s.inAirTimer && r.jumpStarted == s.jumpStarted
    ensures r.isJumping == s.isJumping
    // solid body: ground iff some contact below the head points up steeply
    ensures !other.isTrigger ==>
      var cs := DecodeContacts(buf);
      && (r.onGround <==> s.onGround || GroundContact(cs, nodeY))
      && r.inWater == s.inWater && r.waterContact == s.waterContact
    // water trigger: the first contact below the head is latched, never ground
    ensures other.isTrigger && other.onWaterLayer ==>
      var cs := DecodeContacts(buf);
      && r.onGround == s.onGround
      && (forall i :: FirstBelowHead(cs, nodeY, i) ==> r.inWater && r.waterContact == cs[i].position)
      && (NoneBelowHead(cs, nodeY) ==> r == s)
  {
    var cs := DecodeContacts(buf);
    if !other.isTrigger then
      ScanSolid(s, nodeY, cs);
      ScanContacts(s, false, nodeY, cs)
    else if other.onWaterLayer then
      ScanWater(s, nodeY, cs);
      ScanContacts(s, true, nodeY, cs)
    else s
  }

  // ---------------------------------------------------------------------
  // Controls and move direction

  datatype Controls = Controls(forward: bool, back: bool, left: bool, right: bool, jump: bool)

  /** A move direction on the ground plane in whole axis steps, before
      normalisation (x to the right, z forward). */
  datatype MoveDir = MoveDir(x: int, z: int)

  function Axis(plus: bool, minus: bool): int
  {
    (if plus then 1 else 0) - (if minus then 1 else 0)
  }

  /** The sum of the held direction vectors: FORWARD (0,0,1), BACK (0,0,-1),
      LEFT (-1,0,0), RIGHT (1,0,0). Opposite keys cancel. */
  function MoveDirection(c: Controls): (d: MoveDir)
    ensures -1 <= d.x <= 1 && -1 <= d.z <= 1
    ensures d.z > 0 <==> c.forward && !c.back
    ensures d.z < 0 <==> c.back && !c.forward
    ensures d.x > 0 <==> c.right && !c.left
    ensures d.x < 0 <==> c.left && !c.right
    // normalisation happens exactly when the squared length is positive,
    // which is exactly when the direction is not zero
    ensures d.x * d.x + d.z * d.z > 0 <==> d != MoveDir(0, 0)
    ensures d == MoveDir(0, 0) <==> c.forward == c.back && c.left == c.right
  {
    MoveDir(Axis(c.right, c.left), Axis(c.forward, c.back))
  }

  // ---------------------------------------------------------------------
  // Per-tick update

  datatype Clip = JumpStartClip | JumpLoop1Clip | RunClip | IdleClip

  datatype AnimCommand =
    | StopLayer(layer: nat)
    | PlayExclusive(clip: Clip, layer: nat, looped: bool, fadeTime: real)
    | SetTime(clip: Clip, time: real)

  /** The downward raycast (50 units, mask 0xff): the distance of the body
      hit, or no body. */
  datatype RayResult = NoHit | Hit(distance: real)

  datatype MoveForce = GroundMoveForce | AirMoveForce

  /** What the tick needs from the outside: the controls, the fixed time
      step, the animation controller's "JumpStart is at its end" answer and
      the raycast result. */
  datatype TickInput = TickInput(controls: Controls, timeStep: real, jumpStartAtEnd: bool, ray: RayResult)

  /** The tick's result: the new state, the move direction, which move force
      scales the move impulse, whether the braking step runs, whether the
      jump impulse is applied, and the animation commands in order. */
  datatype TickOutput = TickOutput(
    state: CharacterState,
    moveDir: MoveDir,
    moveForce: MoveForce,
    brake: bool,
    jumpImpulse: bool,
    anim: seq<AnimCommand>)

  /** The in-air timer after the tick's first step. */
  function NextAirTimer(s: CharacterState, timeStep: real): real
  {
    if !s.onGround then s.inAirTimer + timeStep else 0.0
  }

  predicate SoftGrounded(s: CharacterState, timeStep: real)
  {
    NextAirTimer(s, timeStep) < InAirThresholdTime
  }

  const JumpStartCommands: seq<AnimCommand> :=
    [StopLayer(0), PlayExclusive(JumpStartClip, 0, false, 0.2), SetTime(JumpStartClip, 0.0)]

  const JumpLoopAfterStart: seq<AnimCommand> :=
    [PlayExclusive(JumpLoop1Clip, 0, true, 0.3), SetTime(JumpLoop1Clip, 0.0)]

  /** The clip choice of an airborne tick that is not in a jump start:
      JumpLoop1 unless the ground is within the step-down height. */
  function FallCommands(ray: RayResult): (cmds: seq<AnimCommand>)
    ensures cmds == [] || cmds == [PlayExclusive(JumpLoop1Clip, 0, true, 0.2)]
    ensures cmds == [] <==> ray.Hit? && ray.distance <= MaxStepDownHeight
  {
    match ray
    case Hit(d) => if d > MaxStepDownHeight then [PlayExclusive(JumpLoop1Clip, 0, true, 0.2)] else []
    case NoHit => [PlayExclusive(JumpLoop1Clip, 0, true, 0.2)]
  }

  /** Character::FixedUpdate without the moving-platform branch. */
  function FixedUpdate(s: CharacterState, input: TickInput): (o: TickOutput)
    // in-air timer: reset on a grounded tick, otherwise grows by the step
    ensures o.state.inAirTimer == (if s.onGround then 0.0 else s.inAirTimer + input.timeStep)
    ensures s.onGround ==> SoftGrounded(s, input.timeStep)
    // move force and braking follow the soft-grounded window
    ensures o.moveDir == MoveDirection(input.controls)
    ensures o.moveForce == GroundMoveForce <==> SoftGrounded(s, input.timeStep)
    ensures o.brake <==> SoftGrounded(s, input.timeStep)
    // jump edge detector
    ensures o.jumpImpulse <==> SoftGrounded(s, input.timeStep) && input.controls.jump && s.okToJump
    ensures SoftGrounded(s, input.timeStep) ==> (o.state.okToJump <==> !input.controls.jump)
    ensures !SoftGrounded(s, input.timeStep) ==> o.state.okToJump == s.okToJump
    ensures SoftGrounded(s, input.timeStep) ==> o.state.isJumping == input.controls.jump
    ensures !SoftGrounded(s, input.timeStep) ==> o.state.isJumping == s.isJumping
    ensures o.jumpImpulse ==> |o.anim| >= |JumpStartCommands| && o.anim[..|JumpStartCommands|] == JumpStartCommands
    // jump start: cleared only when the clip is at its end, switching to JumpLoop1
    ensures o.state.jumpStarted <==> (s.jumpStarted || o.jumpImpulse) && !input.jumpStartAtEnd
    ensures (s.jumpStarted || o.jumpImpulse) ==>
      o.anim == (if o.jumpImpulse then JumpStartCommands else [])
                + (if input.jumpStartAtEnd then JumpLoopAfterStart else [])
    // airborne, no jump start: the raycast decides
    ensures !s.onGround && !(s.jumpStarted || o.jumpImpulse) ==> o.anim == FallCommands(input.ray)
    // grounded, no jump start: Run when moving within the window, else Idle
    ensures s.onGround && !(s.jumpStarted || o.jumpImpulse) ==>
      o.anim == [PlayExclusive(
        if SoftGrounded(s, input.timeStep) && MoveDirection(input.controls) != MoveDir(0, 0) then RunClip else IdleClip,
        0, true, 0.2)]
    // end of tick: both latches cleared, the water contact kept
    ensures !o.state.onGround && !o.state.inWater
    ensures o.state.waterContact == s.waterContact
  {
    var timer := NextAirTimer(s, input.timeStep);
    var soft := timer < InAirThresholdTime;
    var dir := MoveDirection(input.controls);
    var force := if soft then GroundMoveForce else AirMoveForce;
    var jump := input.controls.jump;
    var impulse := soft && jump && s.okToJump;
    var okToJump := if soft then !jump else s.okToJump;
    var isJumping := if soft then jump else s.isJumping;
    var started := s.jumpStarted || impulse;
    var jumpCmds := if impulse then JumpStartCommands else [];
    var clipCmds :=
      if !s.onGround || started then
        if started then (if input.jumpStartAtEnd then JumpLoopAfterStart else [])
        else FallCommands(input.ray)
      else
        [PlayExclusive(if soft && dir != MoveDir(0, 0) then RunClip else IdleClip, 0, true, 0.2)];
    var started' := started && !input.jumpStartAtEnd;
    var s' := s.(onGround := false, inWater := false, inAirTimer := timer, okToJump := okToJump,
                 isJumping := isJumping, jumpStarted := started');
    TickOutput(s', dir, force, soft, impulse, jumpCmds + clipCmds)
  }

  /** While a jump start is in progress the raycast plays no part. */
  lemma RayIgnoredDuringJumpStart(s: CharacterState, input: TickInput, other: RayResult)
    requires s.jumpStarted
    ensures FixedUpdate(s, input) == FixedUpdate(s, input.(ray := other))
  {
  }

  // ---------------------------------------------------------------------
  // Several ticks

  /** One physics frame: whether the collision callbacks of the frame
      latched ground, then the controller's tick. */
  datatype Frame = Frame(grounded: bool, input: TickInput)

  function Step(s: CharacterState, f: Frame): TickOutput
  {
    FixedUpdate(s.(onGround := s.onGround || f.grounded), f.input)
  }

  /** The state after a run of frames and the number of jump impulses applied. */
  function RunFrames(s: CharacterState, fs: seq<Frame>): (CharacterState, nat)
    decreases |fs|
  {
    if |fs| == 0 then (s, 0)
    else
      var o := Step(s, fs[0]);
      var rest := RunFrames(o.state, fs[1..]);
      (rest.0, rest.1 + (if o.jumpImpulse then 1 else 0))
  }

  predicate JumpHeld(fs: seq<Frame>)
  {
    forall i :: 0 <= i < |fs| ==> fs[i].input.controls.jump
  }

  /** Once disarmed, holding jump keeps the character disarmed and applies no impulse. */
  lemma {:induction false} HeldJumpStaysDisarmed(s: CharacterState, fs: seq<Frame>)
    requires !s.okToJump && JumpHeld(fs)
    ensures RunFrames(s, fs).1 == 0 && !RunFrames(s, fs).0.okToJump
    decreases |fs|
  {
    if |fs| > 0 {
      var o := Step(s, fs[0]);
      assert fs[0].input.controls.jump;
      assert !o.jumpImpulse && !o.state.okToJump;
      assert JumpHeld(fs[1..]) by {
        forall i | 0 <= i < |fs[1..]| ensures fs[1..][i].input.controls.jump {
          assert fs[1..][i] == fs[i + 1];
        }
      }
      HeldJumpStaysDisarmed(o.state, fs[1..]);
    }
  }

  /** Holding jump over any number of frames applies at most one impulse. */
  lemma {:induction false} HeldJumpAtMostOnce(s: CharacterState, fs: seq<Frame>)
    requires JumpHeld(fs)
    ensures RunFrames(s, fs).1 <= 1
    decreases |fs|
  {
    if |fs| > 0 {
      var o := Step(s, fs[0]);
      assert fs[0].input.controls.jump;
      assert JumpHeld(fs[1..]) by {
        forall i | 0 <= i < |fs[1..]| ensures fs[1..][i].input.controls.jump {
          assert fs[1..][i] == fs[i + 1];
        }
      }
      if o.jumpImpulse {
        HeldJumpStaysDisarmed(o.state, fs[1..]);
      } else {
        HeldJumpAtMostOnce(o.state, fs[1..]);
      }
    }
  }

  /** Holding jump from an armed state over frames that start on the ground
      applies exactly one impulse, on the first frame. */
  lemma HeldJumpExactlyOnce(s: CharacterState, fs: seq<Frame>)
    requires s.okToJump && JumpHeld(fs) && |fs| > 0 && fs[0].grounded
    ensures Step(s, fs[0]).jumpImpulse
    ensures RunFrames(s, fs).1 == 1
  {
    var o := Step(s, fs[0]);
    assert fs[0].input.controls.jump;
    assert JumpHeld(fs[1..]) by {
      forall i | 0 <= i < |fs[1..]| ensures fs[1..][i].input.controls.jump {
        assert fs[1..][i] == fs[i + 1];
      }
    }
    HeldJumpStaysDisarmed(o.state, fs[1..]);
  }

  /** Sum of the time steps of a run of frames. */
  function TotalTime(fs: seq<Frame>): real
  {
    if |fs| == 0 then 0.0 else fs[0].input.timeStep + TotalTime(fs[1..])
  }

  predicate NeverGrounded(fs: seq<Frame>)
  {
    forall i :: 0 <= i < |fs| ==> !fs[i].grounded
  }

  /** Over frames with no ground contact the timer accumulates every step;
      after the first frame the latch is always clear, so this holds from
      any state that is not grounded. */
  lemma {:induction false} AirTimerAccumulates(s: CharacterState, fs: seq<Frame>)
    requires !s.onGround && NeverGrounded(fs)
    ensures RunFrames(s, fs).0.inAirTimer == s.inAirTimer + TotalTime(fs)
    decreases |fs|
  {
    if |fs| > 0 {
      var o := Step(s, fs[0]);
      assert !fs[0].grounded;
      assert NeverGrounded(fs[1..]) by {
        forall i | 0 <= i < |fs[1..]| ensures !fs[1..][i].grounded {
          assert fs[1..][i] == fs[i + 1];
        }
      }
      AirTimerAccumulates(o.state, fs[1..]);
    }
  }

  // ---------------------------------------------------------------------
  // Footsteps

  /** Character::SendSplashEvent: a Ripple splash at `pos` facing `dir`. */
  function SendSplashEvent(pos: Vec3, dir: Vec3): (ev: Splash.SplashEvent)
    ensures ev.pos == pos && ev.dir == dir
    ensures Splash.TypeOf(ev.type1) == Some(Splash.Ripple)
  {
    Splash.SplashEvent(pos, dir, Splash.TypeValue(Splash.Ripple))
  }

  /** Character::HandleAnimationTrigger. `footNode` is the world position of
      the child node named by the trigger string, if there is one; `forward`
      is the character's world direction. */
  function HandleAnimationTrigger(s: CharacterState, action: string, footNode: Option<Vec3>, forward: Vec3)
    : (ev: Option<Splash.SplashEvent>)
    ensures ev.Some? <==> (exists i :: MatchesAt(action, "foot", i)) && footNode.Some? && s.inWater
    ensures ev.Some? ==>
      ev.value == Splash.SplashEvent(Vec3(footNode.value.x, s.waterContact.y, footNode.value.z), forward,
                                     Splash.TypeValue(Splash.Ripple))
  {
    if FindNoCase(action, "foot", 0).Some? && footNode.Some? && s.inWater then
      var pos := footNode.value.(y := s.waterContact.y);
      Some(SendSplashEvent(pos, forward))
    else None
  }
}
