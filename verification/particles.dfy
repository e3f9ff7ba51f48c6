/** The flame particle pool of src/assets.c: a fixed-capacity buffer whose first
    activeParticles slots are live, filled by an emission accumulator and
    emptied by swapping dead particles with the last live one. Floats are read
    as reals; rand() is an oracle read at a running call counter. */
module Particles {
  import opened RaylibTypes

  datatype Particle = Particle(position: Vector3, velocity: Vector3, life: real, maxLife: real,
                               size: real, color: Color)

  /** Particles per second that a new system emits. */
  const DefaultEmitRate: real := 15.0
  /** The downward acceleration applied to each particle, per second. */
  const ParticleGravity: real := -2.0
  /** How far above the emitter a particle is born. */
  const BirthOffset: real := 0.25

  /** A freshly emitted particle: at the emitter lifted by BirthOffset, full
      life, and velocity, lifetime, size and colour drawn from six consecutive
      rand() results (taken here in reading order). */
  function NewParticle(emitterPos: Vector3, rand: nat -> nat, k: nat): Particle
  {
    Particle(
      Vector3(emitterPos.x, emitterPos.y + BirthOffset, emitterPos.z),
      Vector3(((rand(k) % 200) as real - 100.0) / 500.0,
              ((rand(k + 1) % 300) as real + 100.0) / 500.0,
              ((rand(k + 2) % 200) as real - 100.0) / 500.0),
      1.0,
      0.5 + (rand(k + 3) % 50) as real / 100.0,
      0.05 + (rand(k + 4) % 30) as real / 1000.0,
      Color(255, 150 + rand(k + 5) % 50, 0, 255))
  }

  /** Every new particle starts at full life just above the emitter, with its
      drawn velocity, lifetime and colour inside the ranges the formulas allow. */
  lemma {:induction false} NewParticleRanges(emitterPos: Vector3, rand: nat -> nat, k: nat)
    ensures var p := NewParticle(emitterPos, rand, k);
      && p.life == 1.0
      && p.position == Vector3(emitterPos.x, emitterPos.y + BirthOffset, emitterPos.z)
      && -0.2 <= p.velocity.x < 0.2 && 0.2 <= p.velocity.y < 0.8 && -0.2 <= p.velocity.z < 0.2
      && 0.5 <= p.maxLife < 1.0 && 150 <= p.color.g < 200
  {
  }

  /** The n particles emitted in one update, starting at call counter k; each
      consumes six rand() results, so the j-th uses the draws from k + 6 * j on. */
  function Emitted(emitterPos: Vector3, rand: nat -> nat, k: nat, n: nat): (ps: seq<Particle>)
    ensures |ps| == n
  {
    if n == 0 then [] else Emitted(emitterPos, rand, k, n - 1) + [NewParticle(emitterPos, rand, k + 6 * (n - 1))]
  }

  lemma EmittedNext(emitterPos: Vector3, rand: nat -> nat, k: nat, n: nat)
    ensures Emitted(emitterPos, rand, k, n + 1) == Emitted(emitterPos, rand, k, n) + [NewParticle(emitterPos, rand, k + 6 * n)]
  {
  }

  /** The live particles after one more emission, as the loop builds them. */
  lemma EmittedAfter(before: seq<Particle>, emitterPos: Vector3, rand: nat -> nat, k: nat, n: nat, next: nat)
    requires next == k + 6 * n
    ensures before + Emitted(emitterPos, rand, k, n + 1)
         == before + Emitted(emitterPos, rand, k, n) + [NewParticle(emitterPos, rand, next)]
  {
    EmittedNext(emitterPos, rand, k, n);
  }

  /** Every emitted particle is born at full life just above the emitter. */
  lemma {:induction false} EmittedFresh(emitterPos: Vector3, rand: nat -> nat, k: nat, n: nat)
    ensures forall p | p in Emitted(emitterPos, rand, k, n) ::
      p.life == 1.0 && p.position == Vector3(emitterPos.x, emitterPos.y + BirthOffset, emitterPos.z)
  {
    if n > 0 {
      EmittedFresh(emitterPos, rand, k, n - 1);
    }
  }

  /** How many particles one update emits: the whole part of the accumulator,
      cut down to the free slots; what does not fit is dropped. */
  function EmitCount(toEmit: int, free: int): (n: nat)
    ensures n <= (if toEmit < 0 then 0 else toEmit)
    ensures n <= (if free < 0 then 0 else free)
    ensures toEmit > 0 && free > 0 ==> (n == toEmit || n == free)
  {
    if toEmit <= 0 || free <= 0 then 0 else if toEmit <= free then toEmit else free
  }

  /** One step of a particle: gravity on the vertical velocity, then the
      position moves by the new velocity, and the particle ages by dt. */
  function Advance(p: Particle, dt: real): (q: Particle)
    ensures q.life == p.life - dt
    ensures q.maxLife == p.maxLife && q.size == p.size && q.color == p.color
  {
    var v := p.velocity.(y := p.velocity.y + ParticleGravity * dt);
    p.(velocity := v,
       position := Vector3(p.position.x + v.x * dt, p.position.y + v.y * dt, p.position.z + v.z * dt),
       life := p.life - dt)
  }

  /** The particles of ps that are still alive after one step, each advanced
      once, in their original order. */
  function Survivors(ps: seq<Particle>, dt: real): seq<Particle>
  {
    if ps == [] then [] else Keep(ps[0], dt) + Survivors(ps[1..], dt)
  }

  /** What one particle leaves after a step: itself advanced, or nothing once
      its life is used up. */
  function Keep(p: Particle, dt: real): seq<Particle>
  {
    var q := Advance(p, dt);
    if q.life <= 0.0 then [] else [q]
  }

  /** Every survivor is alive, and the survivors are exactly the advanced
      particles whose life stayed positive. */
  lemma {:induction false} SurvivorsAreAdvancedLiving(ps: seq<Particle>, dt: real)
    ensures |Survivors(ps, dt)| <= |ps|
    ensures forall q | q in Survivors(ps, dt) :: q.life > 0.0
    ensures forall q :: q in Survivors(ps, dt) <==> exists i | 0 <= i < |ps| :: q == Advance(ps[i], dt) && q.life > 0.0
  {
    if ps != [] {
      SurvivorsAreAdvancedLiving(ps[1..], dt);
      forall q | (exists i | 0 <= i < |ps| :: q == Advance(ps[i], dt) && q.life > 0.0)
        ensures q in Survivors(ps, dt)
      {
        var i :| 0 <= i < |ps| && q == Advance(ps[i], dt) && q.life > 0.0;
        if i > 0 {
          assert ps[1..][i - 1] == ps[i];
        }
      }
      forall q | q in Survivors(ps[1..], dt)
        ensures exists i | 0 <= i < |ps| :: q == Advance(ps[i], dt) && q.life > 0.0
      {
        var i :| 0 <= i < |ps[1..]| && q == Advance(ps[1..][i], dt) && q.life > 0.0;
        assert ps[i + 1] == ps[1..][i];
      }
    }
  }

  /** Survival is decided particle by particle, so it distributes over
      concatenation. */
  lemma {:induction false} SurvivorsAppend(s: seq<Particle>, t: seq<Particle>, dt: real)
    ensures Survivors(s + t, dt) == Survivors(s, dt) + Survivors(t, dt)
  {
    if s != [] {
      assert (s + t)[1..] == s[1..] + t;
      SurvivorsAppend(s[1..], t, dt);
      assert Survivors(s + t, dt) == Keep(s[0], dt) + Survivors(s[1..] + t, dt);
    } else {
      assert s + t == t;
    }
  }

  /** Removing a dead first particle by moving the last one into its slot
      leaves the survivors unchanged, as a multiset. */
  lemma {:induction false} SwapRemoveKeepsSurvivors(seg: seq<Particle>, dt: real)
    requires |seg| >= 1 && Advance(seg[0], dt).life <= 0.0
    ensures multiset(Survivors(seg, dt))
         == multiset(Survivors(if |seg| == 1 then [] else [seg[|seg| - 1]] + seg[1..|seg| - 1], dt))
  {
    if |seg| > 1 {
      var last, mid := seg[|seg| - 1], seg[1..|seg| - 1];
      assert seg[1..] == mid + [last];
      SurvivorsAppend(mid, [last], dt);
      SurvivorsAppend([last], mid, dt);
    }
  }

  /** The emission accumulator after a frame of dt seconds at rate particles
      per second. */
  function Accrued(acc: real, rate: real, dt: real): real
  {
    acc + rate * dt
  }

  /** The fractional part that the accumulator keeps: the value minus its
      truncation toward zero. */
  function Fraction(acc: real): (f: real)
    ensures -1.0 < f < 1.0
    ensures acc >= 0.0 ==> 0.0 <= f
    ensures f == acc - Trunc(acc) as real
  {
    acc - Trunc(acc) as real
  }

  class ParticleSystem {
    /** The buffer; it is allocated once with maxParticles slots. */
    const particles: array<Particle>
    const maxParticles: int
    var activeParticles: int
    var emitterPos: Vector3
    var emitRate: real
    var emitAccumulator: real

    ghost predicate Valid()
      reads this
    {
      particles.Length == maxParticles && 0 <= activeParticles <= maxParticles
    }

    /** The live particles. */
    ghost function Live(): seq<Particle>
      requires Valid()
      reads this, particles
    {
      particles[..activeParticles]
    }

    /** The successful path of ParticleSystem_Create. */
    constructor (maxParticles: int)
      requires maxParticles >= 0
      ensures Valid() && fresh(particles)
      ensures this.maxParticles == maxParticles && activeParticles == 0
      ensures emitRate == DefaultEmitRate && emitAccumulator == 0.0
      ensures emitterPos == Vector3(0.0, 0.0, 0.0)
    {
      particles := new Particle[maxParticles](_ => Particle(Vector3(0.0, 0.0, 0.0), Vector3(0.0, 0.0, 0.0),
                                                            0.0, 0.0, 0.0, Color(0, 0, 0, 0)));
      this.maxParticles := maxParticles;
      activeParticles := 0;
      emitRate := DefaultEmitRate;
      emitAccumulator := 0.0;
      emitterPos := Vector3(0.0, 0.0, 0.0);
    }

    /** ParticleSystem_Update on a system: emission, then one step of every
        live particle with swap-removal of the dead. */
    method Update(emitterPos: Vector3, dt: real, rand: nat -> nat, k: nat) returns (k': nat)
      requires Valid()
      modifies this`emitterPos, this`emitAccumulator, this`activeParticles, particles
      ensures Valid()
      ensures this.emitterPos == emitterPos
      ensures emitAccumulator == Fraction(Accrued(old(emitAccumulator), old(emitRate), dt))
      ensures var n := EmitCount(Trunc(Accrued(old(emitAccumulator), old(emitRate), dt)), old(maxParticles - activeParticles));
        k' == k + 6 * n
      ensures var n := EmitCount(Trunc(Accrued(old(emitAccumulator), old(emitRate), dt)), old(maxParticles - activeParticles));
        multiset(Live()) == multiset(Survivors(old(Live()) + Emitted(emitterPos, rand, k, n), dt))
      ensures forall i | 0 <= i < activeParticles :: particles[i].life > 0.0
    {
      ghost var start := Live();
      ghost var acc := Accrued(emitAccumulator, emitRate, dt);
      ghost var n := EmitCount(Trunc(acc), maxParticles - activeParticles);
      this.emitterPos := emitterPos;
      var toEmit := Accumulate(dt);
      assert toEmit == Trunc(acc) && emitAccumulator == Fraction(acc);
      assert n == EmitCount(toEmit, maxParticles - activeParticles);
      k' := Emit(toEmit, emitterPos, rand, k);
      assert k' == k + 6 * n && Live() == start + Emitted(emitterPos, rand, k, n);
      Step(dt);
      assert multiset(Live()) == multiset(Survivors(start + Emitted(emitterPos, rand, k, n), dt));
    }

    /** Adds this frame's share of the emission rate to the accumulator and
        takes out its whole part, which is the number of particles to emit. */
    method Accumulate(dt: real) returns (toEmit: int)
      modifies this`emitAccumulator
      ensures toEmit == Trunc(Accrued(old(emitAccumulator), emitRate, dt))
      ensures emitAccumulator == Fraction(Accrued(old(emitAccumulator), emitRate, dt))
    {
      emitAccumulator := Accrued(emitAccumulator, emitRate, dt);
      toEmit := Trunc(emitAccumulator);
      emitAccumulator := emitAccumulator - toEmit as real;
    }

    /** The emission loop: up to toEmit new particles while slots are free. */
    method Emit(toEmit: int, emitterPos: Vector3, rand: nat -> nat, k: nat) returns (k': nat)
      requires Valid()
      modifies this`activeParticles, particles
      ensures Valid()
      ensures var n := EmitCount(toEmit, old(maxParticles - activeParticles));
        && k' == k + 6 * n
        && Live() == old(Live()) + Emitted(emitterPos, rand, k, n)
    {
      ghost var before := Live();
      ghost var free := maxParticles - activeParticles;
      k' := k;
      var i := 0;
      while i < toEmit && activeParticles < maxParticles
        invariant Valid() && 0 <= i && i <= (if toEmit < 0 then 0 else toEmit)
        invariant activeParticles == |before| + i && k' == k + 6 * i
        invariant Live() == before + Emitted(emitterPos, rand, k, i)
      {
        var p := NewParticle(emitterPos, rand, k');
        Push(p);
        EmittedAfter(before, emitterPos, rand, k, i, k');
        k' := k' + 6;
        i := i + 1;
      }
      assert i == EmitCount(toEmit, free);
    }

    /** Writes p into the first free slot and counts it live. */
    method Push(p: Particle)
      requires Valid() && activeParticles < maxParticles
      modifies this`activeParticles, particles
      ensures Valid() && activeParticles == old(activeParticles) + 1
      ensures Live() == old(Live()) + [p]
    {
      particles[activeParticles] := p;
      activeParticles := activeParticles + 1;
    }

    /** The update loop: every live particle advances once; a dead one is
        replaced by the last live particle, and that slot is visited next. */
    method Step(dt: real)
      requires Valid()
      modifies this`activeParticles, particles
      ensures Valid()
      ensures multiset(Live()) == multiset(Survivors(old(Live()), dt))
      ensures forall i | 0 <= i < activeParticles :: particles[i].life > 0.0
    {
      ghost var pool := Live();
      StepStart(pool, dt);
      var i := 0;
      while i < activeParticles
        invariant Valid() && StepInvariant(Live(), i, pool, dt)
        decreases activeParticles - i
      {
        i := StepSlot(i, dt, pool);
      }
      StepDone(Live(), i, pool, dt);
    }

    /** Overwrites slot i with the last live particle and drops the last slot. */
    method SwapOut(i: int)
      requires Valid() && 0 <= i < activeParticles
      modifies this`activeParticles, particles
      ensures Valid() && activeParticles == old(activeParticles) - 1
      ensures Live() == SwapRemove(old(Live()), i)
    {
      particles[i] := particles[activeParticles - 1];
      activeParticles := activeParticles - 1;
    }

    /** One pass of the update loop's body, ending with the loop's i++. */
    method StepSlot(i: int, dt: real, ghost pool: seq<Particle>) returns (i': int)
      requires Valid() && StepInvariant(Live(), i, pool, dt) && i < activeParticles
      modifies this`activeParticles, particles
      ensures Valid() && StepInvariant(Live(), i', pool, dt)
      ensures 0 <= activeParticles - i' < old(activeParticles) - i
    {
      var p := Advance(particles[i], dt);
      if p.life <= 0.0 {
        DropSlot(i, p, dt, pool);
        i' := i - 1;
      } else {
        KeepSlot(i, p, dt, pool);
        i' := i;
      }
      i' := i' + 1;
    }

    /** A particle whose life ran out: the last live particle takes its slot. */
    method DropSlot(i: int, p: Particle, dt: real, ghost pool: seq<Particle>)
      requires Valid() && StepInvariant(Live(), i, pool, dt) && i < activeParticles
      requires p == Advance(particles[i], dt) && p.life <= 0.0
      modifies this`activeParticles, particles
      ensures Valid() && StepInvariant(Live(), i, pool, dt)
      ensures activeParticles == old(activeParticles) - 1
    {
      ghost var a := Live();
      particles[i] := p;
      SwapOut(i);
      SwapRemoveIgnoresSlot(a, i, p);
      RemoveStep(a, i, pool, dt);
    }

    /** A particle that lives on is written back advanced. */
    method KeepSlot(i: int, p: Particle, dt: real, ghost pool: seq<Particle>)
      requires Valid() && StepInvariant(Live(), i, pool, dt) && i < activeParticles
      requires p == Advance(particles[i], dt) && p.life > 0.0
      modifies particles
      ensures Valid() && StepInvariant(Live(), i + 1, pool, dt)
    {
      ghost var a := Live();
      particles[i] := p;
      assert Live() == a[i := p];
      KeepStep(a, i, pool, dt, Live());
    }
  }

  /** The update loop's invariant over the live particles a: slots before i are
      done and alive, and they together with the survivors of the slots still
      to visit are the survivors of the pool the loop started with. */
  ghost predicate StepInvariant(a: seq<Particle>, i: int, pool: seq<Particle>, dt: real)
  {
    && 0 <= i <= |a|
    && (forall j | 0 <= j < i :: a[j].life > 0.0)
    && multiset(a[..i]) + multiset(Survivors(a[i..], dt)) == multiset(Survivors(pool, dt))
  }

  /** Before the loop nothing is done and every particle is still to visit. */
  lemma StepStart(pool: seq<Particle>, dt: real)
    ensures StepInvariant(pool, 0, pool, dt)
  {
    assert pool[..0] == [] && pool[0..] == pool;
  }

  /** Once every slot is visited, the live particles are alive and are the
      survivors of the pool. */
  lemma StepDone(a: seq<Particle>, i: int, pool: seq<Particle>, dt: real)
    requires StepInvariant(a, i, pool, dt) && i == |a|
    ensures multiset(a) == multiset(Survivors(pool, dt))
    ensures forall j | 0 <= j < |a| :: a[j].life > 0.0
  {
    assert a[..|a|] == a && a[|a|..] == [];
  }

  /** A particle that lives on is written back advanced, and the loop moves on. */
  lemma {:induction false} KeepStep(a: seq<Particle>, i: int, pool: seq<Particle>, dt: real, a': seq<Particle>)
    requires StepInvariant(a, i, pool, dt) && i < |a| && Advance(a[i], dt).life > 0.0
    requires a' == a[i := Advance(a[i], dt)]
    ensures StepInvariant(a', i + 1, pool, dt)
  {
    var q := Advance(a[i], dt);
    assert a[i..][1..] == a[i + 1..];
    assert Survivors(a[i..], dt) == [q] + Survivors(a[i + 1..], dt);
    assert a'[..i + 1] == a[..i] + [q];
    assert a'[i + 1..] == a[i + 1..];
    assert multiset(a'[..i + 1]) == multiset(a[..i]) + multiset{q};
    forall j | 0 <= j < i + 1
      ensures a'[j].life > 0.0
    {
      if j < i {
        assert a'[j] == a[j];
      }
    }
  }

  /** The swap-removal of slot i: the last element moves into slot i and the
      sequence loses its last place. */
  function SwapRemove(a: seq<Particle>, i: int): (b: seq<Particle>)
    requires 0 <= i < |a|
    ensures |b| == |a| - 1
  {
    a[i := a[|a| - 1]][..|a| - 1]
  }

  /** What slot i held beforehand does not matter to its swap-removal. */
  lemma SwapRemoveIgnoresSlot(a: seq<Particle>, i: int, p: Particle)
    requires 0 <= i < |a|
    ensures SwapRemove(a[i := p], i) == SwapRemove(a, i)
  {
    if i < |a| - 1 {
      assert a[i := p][|a| - 1] == a[|a| - 1];
    }
  }

  /** Seen from slot i on, swap-removal takes the last element to the front of
      the rest, and leaves the slots before i alone. */
  lemma SwapRemoveSplit(a: seq<Particle>, i: int)
    requires 0 <= i < |a|
    ensures SwapRemove(a, i)[..i] == a[..i]
    ensures var seg := a[i..];
      SwapRemove(a, i)[i..] == if |seg| == 1 then [] else [seg[|seg| - 1]] + seg[1..|seg| - 1]
  {
  }

  /** A dead particle is overwritten by the last live one, the count drops, and
      the same slot is visited again. */
  lemma {:induction false} RemoveStep(a: seq<Particle>, i: int, pool: seq<Particle>, dt: real)
    requires StepInvariant(a, i, pool, dt) && i < |a| && Advance(a[i], dt).life <= 0.0
    ensures StepInvariant(SwapRemove(a, i), i, pool, dt)
  {
    var a' := SwapRemove(a, i);
    SwapRemoveSplit(a, i);
    SwapRemoveKeepsSurvivors(a[i..], dt);
    assert multiset(a'[..i]) == multiset(a[..i]);
    assert multiset(Survivors(a'[i..], dt)) == multiset(Survivors(a[i..], dt));
    forall j | 0 <= j < i
      ensures a'[j].life > 0.0
    {
      assert a'[j] == a'[..i][j] == a[..i][j] == a[j];
    }
  }

  /** ParticleSystem_Create: no system when either allocation fails. A
      negative capacity asks malloc for an enormous size, and is read here as
      a failed allocation. */
  method Create(maxParticles: int, systemAllocated: bool, bufferAllocated: bool) returns (ps: ParticleSystem?)
    ensures ps == null <==> !systemAllocated || !bufferAllocated || maxParticles < 0
    ensures ps != null ==> && fresh(ps) && fresh(ps.particles) && ps.Valid()
                           && ps.maxParticles == maxParticles && ps.activeParticles == 0
                           && ps.emitRate == DefaultEmitRate && ps.emitAccumulator == 0.0
  {
    if !systemAllocated || !bufferAllocated || maxParticles < 0 {
      return null;
    }
    ps := new ParticleSystem(maxParticles);
  }

  /** ParticleSystem_Update with a possibly missing system: nothing happens
      without one. */
  method UpdateSystem(ps: ParticleSystem?, emitterPos: Vector3, dt: real, rand: nat -> nat, k: nat)
    returns (k': nat)
    requires ps != null ==> ps.Valid()
    modifies if ps != null then {ps, ps.particles} else {}
    ensures ps == null ==> k' == k
    ensures ps != null ==> ps.Valid() && ps.emitterPos == emitterPos
    ensures ps != null ==>
      ps.emitAccumulator == Fraction(Accrued(old(ps.emitAccumulator), old(ps.emitRate), dt))
    ensures ps != null ==>
      var n := EmitCount(Trunc(Accrued(old(ps.emitAccumulator), old(ps.emitRate), dt)),
                         old(ps.maxParticles - ps.activeParticles));
      && k' == k + 6 * n
      && multiset(ps.Live()) == multiset(Survivors(old(ps.Live()) + Emitted(emitterPos, rand, k, n), dt))
    ensures ps != null ==> forall i | 0 <= i < ps.activeParticles :: ps.particles[i].life > 0.0
  {
    if ps == null {
      return k;
    }
    k' := ps.Update(emitterPos, dt, rand, k);
  }
}
