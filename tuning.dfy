/**
 * `tuning_param` and `tuning_config` as objects whose methods update their
 * fields in place; each method is proved against the function of TuningSpec
 * that describes its effect on the state.
 */
module Tuning {
  import opened BoundedInts
  import opened StringOrder
  import opened TuningSpec

  /** A bounded counter with an increment policy. */
  class TuningParam {
    var current: uint32
    const min: uint32
    const max: uint32
    const policy: Increment

    function State(): Param
      reads this
    {
      Param(current, min, max, policy)
    }

    /** A new parameter starts at its minimum. */
    constructor (min: uint32, max: uint32, policy: Increment)
      ensures State() == NewParam(min, max, policy)
    {
      this.current := min;
      this.min := min;
      this.max := max;
      this.policy := policy;
    }

    /** `is_max()`: the current value has reached the maximum. */
    method IsMax() returns (r: bool)
      ensures r <==> AtMax(State())
    {
      r := current >= max;
    }

    /** `inc()`: applies the policy, restarts at `min` past `max`, and reports whether it did. */
    method Inc() returns (wrapped: bool)
      modifies this
      ensures (State(), wrapped) == TuningSpec.Inc(old(State()))
    {
      match policy {
        case MulByTwo => current := WrappingDouble(current);
        case AddOne => current := WrappingSucc(current);
      }
      if current <= max {
        return false;
      }
      current := min;
      return true;
    }

    /** `reset()`. */
    method Reset()
      modifies this
      ensures State() == TuningSpec.Reset(old(State()))
    {
      current := min;
    }
  }

  /** The parameters of a tuning configuration by name. */
  class TuningConfig {
    var params: map<string, TuningParam>

    /** Distinct names hold distinct parameter objects. */
    ghost predicate Valid()
      reads this
    {
      forall a, b :: a in params && b in params && a != b ==> params[a] != params[b]
    }

    function Objects(): set<TuningParam>
      reads this
    {
      set n | n in params :: params[n]
    }

    function State(): Params
      reads this, Objects()
    {
      map n | n in params :: params[n].State()
    }

    constructor ()
      ensures Valid() && State() == map[]
    {
      params := map[];
    }

    /** `add_tuning_param`: a name already present keeps its parameter. */
    method AddTuningParam(name: string, min: uint32, max: uint32, policy: Increment)
      requires Valid()
      modifies this
      ensures Valid()
      ensures State() == AddParam(old(State()), name, min, max, policy)
      ensures name in old(params) ==> params == old(params)
    {
      if name !in params {
        var p := new TuningParam(min, max, policy);
        params := params[name := p];
      }
    }

    /** `has_next()`: a fold of "not at its maximum" over the parameters in name order. */
    method HasNext() returns (res: bool)
      ensures res == TuningSpec.HasNext(State())
    {
      res := false;
      var pending := params.Keys;
      while pending != {}
        invariant pending <= params.Keys
        invariant res <==> exists n :: n in params && n !in pending && !AtMax(params[n].State())
        decreases pending
      {
        var n := Least(pending);
        var atMax := params[n].IsMax();
        res := res || !atMax;
        pending := pending - {n};
      }
      assert forall n :: n in params ==> n in State() && State()[n] == params[n].State();
    }

    /** `update()`: increments in name order and stops after the first parameter that does not wrap. */
    method Update()
      requires Valid()
      modifies Objects()
      ensures params == old(params)
      ensures State() == TuningSpec.Update(old(State()))
    {
      ghost var start := State();
      var pending := params.Keys;
      assert start.Keys == pending;
      while pending != {}
        invariant pending <= params.Keys
        invariant params == old(params)
        invariant UpdateFrom(State(), pending) == UpdateFrom(start, start.Keys)
        decreases pending
      {
        var n := Least(pending);
        ghost var before := State();
        var wrapped := params[n].Inc();
        assert State() == before[n := TuningSpec.Inc(before[n]).0] by {
          forall x | x in params && x != n ensures params[x].State() == before[x] {
            assert params[x] != params[n];
          }
        }
        if !wrapped {
          break;
        }
        pending := pending - {n};
      }
    }

    /** `reset()`: every parameter back to its minimum. */
    method Reset()
      requires Valid()
      modifies Objects()
      ensures params == old(params)
      ensures State() == ResetAll(old(State()))
    {
      ghost var start := State();
      var pending := params.Keys;
      while pending != {}
        invariant pending <= params.Keys
        invariant params == old(params)
        invariant forall n :: n in params ==>
          params[n].State() == if n in pending then start[n] else TuningSpec.Reset(start[n])
        decreases pending
      {
        var n := Least(pending);
        params[n].Reset();
        pending := pending - {n};
      }
    }
  }
}
