/** The named-entity report of one decoded chunk: every entity of
    `Level.Entities` with a non-empty `CustomName` is printed as
    `name (id) (x, y, z)`, in list order. */
module Entities {
  import opened Common

  /** A Go `float64`, kept as its bit pattern: the model never computes with
      positions, it only passes them on. */
  datatype Float64 = Float64(bits: bv64)

  /** The `Entity` struct the NBT decoder fills. A field missing from the
      chunk keeps its zero value: "" for the name and the id, an empty `Pos`. */
  datatype Entity = Entity(customName: string, pos: seq<Float64>, id: string)

  /** One printed line: name, id and the three position components. */
  datatype Record = Record(name: string, id: string, x: Float64, y: Float64, z: Float64)

  predicate IsNamed(e: Entity) { |e.customName| > 0 }

  function Project(e: Entity): (r: Record)
    requires |e.pos| >= 3
  {
    Record(e.customName, e.id, e.pos[0], e.pos[1], e.pos[2])
  }

  /** The loop over `chunk.Level.Entities`. A named entity whose `Pos` has
      fewer than three elements makes `Pos[k]` panic, which ends the run
      after the lines already printed. */
  function Select(es: seq<Entity>): (t: Trace<Record>)
    ensures |t.out| <= |es|
    ensures t.failure.Some? ==> t.failure == Some(PosOutOfRange)
  {
    if es == [] then Done()
    else if !IsNamed(es[0]) then Select(es[1..])
    else if |es[0].pos| < 3 then Abort(PosOutOfRange)
    else
      var rest := Select(es[1..]);
      Trace([Project(es[0])] + rest.out, rest.failure)
  }

  /** The entities with a non-empty name, in list order. */
  function Named(es: seq<Entity>): (r: seq<Entity>)
    ensures |r| <= |es|
    ensures forall i :: 0 <= i < |r| ==> IsNamed(r[i])
  {
    if es == [] then []
    else if IsNamed(es[0]) then [es[0]] + Named(es[1..])
    else Named(es[1..])
  }

  /** An entity is kept exactly when it is in the list and has a name. */
  lemma {:induction false} NamedMembers(es: seq<Entity>, e: Entity)
    ensures e in Named(es) <==> e in es && IsNamed(e)
  {
    if es != [] {
      NamedMembers(es[1..], e);
      assert es == [es[0]] + es[1..];
    }
  }

  /** Filtering a concatenated list is concatenating the filtered parts: the
      kept entities stay in list order. */
  lemma {:induction false} NamedAppend(a: seq<Entity>, b: seq<Entity>)
    ensures Named(a + b) == Named(a) + Named(b)
  {
    if a == [] {
      assert a + b == b;
    } else {
      assert (a + b)[0] == a[0];
      assert (a + b)[1..] == a[1..] + b;
      NamedAppend(a[1..], b);
    }
  }

  /** Each named entity is kept as often as it occurs, and an unnamed one
      never: nothing is added or duplicated. */
  lemma {:induction false} NamedCounts(es: seq<Entity>, e: Entity)
    ensures multiset(Named(es))[e] == if IsNamed(e) then multiset(es)[e] else 0
  {
    if es != [] {
      NamedCounts(es[1..], e);
      assert es == [es[0]] + es[1..];
    }
  }

  /** Every named entity has a full position. */
  predicate Printable(es: seq<Entity>) {
    forall i :: 0 <= i < |es| && IsNamed(es[i]) ==> |es[i].pos| >= 3
  }

  /** Entities with an empty name play no part, whatever their `Pos` holds. */
  lemma {:induction false} SelectIgnoresUnnamed(es: seq<Entity>)
    ensures Select(es) == Select(Named(es))
  {
    if es != [] {
      SelectIgnoresUnnamed(es[1..]);
      if IsNamed(es[0]) {
        assert ([es[0]] + Named(es[1..]))[1..] == Named(es[1..]);
      }
    }
  }

  /** When every named entity has a position, the report is complete and holds
      exactly one record per named entity, in list order. */
  lemma {:induction false} SelectPrintable(es: seq<Entity>)
    requires Printable(es)
    ensures Select(es).failure.None?
    ensures |Select(es).out| == |Named(es)|
    ensures forall k :: 0 <= k < |Named(es)| ==>
              |Named(es)[k].pos| >= 3 && Select(es).out[k] == Project(Named(es)[k])
  {
    if es != [] {
      assert Printable(es[1..]) by {
        forall i | 0 <= i < |es[1..]| && IsNamed(es[1..][i]) ensures |es[1..][i].pos| >= 3 {
          assert es[1..][i] == es[i + 1];
        }
      }
      SelectPrintable(es[1..]);
      if IsNamed(es[0]) {
        var n := Named(es);
        assert n == [es[0]] + Named(es[1..]);
        forall k | 0 <= k < |n| ensures |n[k].pos| >= 3 && Select(es).out[k] == Project(n[k]) {
          if k > 0 { assert n[k] == Named(es[1..])[k - 1]; }
        }
      }
    }
  }

  /** The report aborts exactly when some named entity lacks a full position. */
  lemma {:induction false} SelectFailsIff(es: seq<Entity>)
    ensures Select(es).failure.Some? <==> !Printable(es)
  {
    if es != [] {
      SelectFailsIff(es[1..]);
      if Printable(es) {
        SelectPrintable(es);
      } else if IsNamed(es[0]) && |es[0].pos| < 3 {
      } else {
        var i :| 0 <= i < |es| && IsNamed(es[i]) && |es[i].pos| < 3;
        assert i > 0;
        assert es[1..][i - 1] == es[i];
      }
    }
  }

  /** Reporting two lists one after the other is reporting their
      concatenation: order is kept and an abort ends everything after it. */
  lemma {:induction false} SelectAppend(a: seq<Entity>, b: seq<Entity>)
    ensures Select(a + b) == Then(Select(a), Select(b))
  {
    if a == [] {
      assert a + b == b;
      ThenDone(Select(b));
    } else {
      assert (a + b)[0] == a[0];
      assert (a + b)[1..] == a[1..] + b;
      SelectAppend(a[1..], b);
      if IsNamed(a[0]) && |a[0].pos| >= 3 {
        var r := Select(a[1..]);
        if r.failure.None? {
          assert [Project(a[0])] + (r.out + Select(b).out) == ([Project(a[0])] + r.out) + Select(b).out;
        }
      }
    }
  }

  /** The chunk used as an example: one named villager yields one record. */
  lemma VillagerExample(x: Float64, y: Float64, z: Float64)
    ensures Select([Entity("Bob", [x, y, z], "minecraft:villager")])
            == Trace([Record("Bob", "minecraft:villager", x, y, z)], None)
  {
  }
}
