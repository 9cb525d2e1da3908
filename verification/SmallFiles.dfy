/** The smallest datasets always compile: no rows in version 1, one row in version 2. */
module SmallFiles {
  import opened Words
  import opened Rows
  import opened Flatten
  import opened Grouping
  import opened BucketOrder
  import opened Greedy
  import opened Placement
  import PlaceV1
  import FileV1
  import CompileV1
  import Primes
  import PtHash
  import FileV2
  import LookupV2
  import CompileV2

  // ------------------------------------------------------------------- version 1 --

  function Zeros(n: nat): (r: seq<nat>)
    ensures |r| == n && forall i | 0 <= i < n :: r[i] == 0
  {
    seq(n, _ => 0)
  }

  lemma NothingPlanned(pos: Pos, nb: nat)
    ensures Solves([], [], nb, pos, Plan(Regroup([], [], nb), [], Zeros(nb)))
  {
    var g := Regroup([], [], nb);
    assert forall b: nat | b < nb :: g[b] == [];
    assert forall b: nat | b < nb :: SizesOf(g)[b] == 0;
  }

  lemma EmptyPlaced(slotRow: seq<nat>)
    requires slotRow == seq(3, _ => PlaceV1.EMPTY)
    ensures PlaceV1.IsPlacement([], PlaceV1.Sizes(3, 3), Zeros(3), slotRow)
  {
    NothingPlanned(PlaceV1.Pos1(3), 3);
    var pl := Plan(Regroup([], [], 3), [], Zeros(3));
    assert PlaceV1.Los([]) == [] && PlaceV1.Buckets1([], 3) == [];
    assert PlaceV1.PlanFor1([], PlaceV1.Sizes(3, 3), pl);
  }

  /** No rows: an empty dataset is valid, with three slots and three buckets. */
  lemma EmptyCompiles(hash: Hash, crc: Crc)
    ensures exists file :: CompileV1.IsFile([], hash, crc, file)
  {
    var z, slotRow := PlaceV1.Sizes(3, 3), seq(3, _ => PlaceV1.EMPTY);
    Primes.SmallPrimes(3);
    EmptyPlaced(slotRow);
    assert Hashes([], hash) == [];
    assert CompileV1.Plans([], hash, z, Zeros(3), slotRow);
    var file := FileV1.File(z, FileV1.Wide(Zeros(3)), Zeros(3), FileV1.Content([], slotRow), crc);
    assert CompileV1.IsFile([], hash, crc, file);
  }

  // ------------------------------------------------------------------- version 2 --

  lemma SelectOne(x: nat, b: nat, c: nat)
    ensures Select<nat>([x], [b], c) == if b == c then [x] else []
  {
    assert [x][..0] == [] && [b][..0] == [];
  }

  lemma OneFits(x: nat, pos: Pos)
    ensures Least([x], 0, {}, pos)
  {
  }

  /** One key is placed by pilot zero. */
  lemma OnePlanned(x: nat, b: nat, nb: nat, pos: Pos)
    requires b < nb
    ensures Solves([x], [b], nb, pos, Plan(Regroup([x], [b], nb), [b], Zeros(nb)))
  {
    var g, order, disp := Regroup([x], [b], nb), [b], Zeros(nb);
    forall c: nat | c < nb
      ensures g[c] == if b == c then [x] else []
    {
      SelectOne(x, b, c);
    }
    assert IsOrder(order, SizesOf(g));
    OneFits(x, pos);
    assert order[..0] == [];
    assert LeastAt(g, order, disp, pos, 0);
  }

  lemma OneHasTable(x: nat, z: PtHash.Sizing, mixer: PtHash.Mixer) returns (t: PtHash.Table)
    requires PtHash.ValidSizing(1, z)
    ensures PtHash.IsTable(t, [x], z, mixer)
  {
    var pos := PtHash.Position(mixer, z.m);
    PtHash.BucketBound(x, z);
    var b := PtHash.BucketOf(x, z);
    assert PtHash.Buckets([x], z) == [b];
    OnePlanned(x, b, z.nb, pos);
    var pl := Plan(Regroup([x], [b], z.nb), [b], Zeros(z.nb));
    assert PtHash.PlanFor([x], z, mixer, pl);
    t := PtHash.Encode(1, z, pl.disp, Taken(pos, pl));
  }

  /** Compile's options: no compression, automatic offsets, full keys. */
  function Defaults(): (o: CompileV2.Options)
    ensures CompileV2.ValidOptions(o)
  {
    CompileV2.Options(CompileV2.NoCompression, 0, 0, 0)
  }

  lemma OneBlob(r: Row, env: LookupV2.Env)
    requires Storable(r)
    ensures var o := CompileV2.FormatOf(Defaults(), 4);
      CompileV2.ChooseWidth(0, |FileV2.Blob(CompileV2.UnitsFor([r], o, env.fp))|) == Some(4)
  {
    var o := CompileV2.FormatOf(Defaults(), 4);
    var units := CompileV2.UnitsFor([r], o, env.fp);
    assert units == [Record(r)];
    FlatPrefix(units, 0, FileV2.Same);
    assert units[..0] == [] && units[..1] == units;
    assert FileV2.Blob(units) == Record(r);
  }

  lemma OneInSlot(r: Row, h: nat, t: PtHash.Table, hash: Hash, mixer: PtHash.Mixer)
    requires PtHash.BijectiveOn(t, [h], mixer) && h == hash(r.key)
    ensures LookupV2.IsContent(t, [r], [r], hash, mixer)
  {
    assert PtHash.Slot(t, [h][0], mixer) == 0;
  }

  lemma OneLaid(r: Row, env: LookupV2.Env) returns (t: PtHash.Table)
    requires CompileV2.GoodEnv(env, 1)
    ensures CompileV2.Laid([r], env, t, [r]) && FileV2.Storable(t)
  {
    var h: nat, z := env.hash(r.key), env.sizing(1);
    assert Hashes([r], env.hash) == [h];
    t := OneHasTable(h, z, env.mixer);
    PtHash.MinimalPerfect(t, [h], z, env.mixer);
    CompileV2.TableStorable(t, [h], z, env.mixer);
    OneInSlot(r, h, t, env.hash, env.mixer);
  }

  /** One storable row always compiles. */
  lemma OneCompiles(r: Row, env: LookupV2.Env)
    requires Storable(r) && CompileV2.GoodEnv(env, 1)
    ensures exists file :: CompileV2.IsFile([r], Defaults(), env, file)
  {
    var t := OneLaid(r, env);
    OneBlob(r, env);
    assert CompileV2.Plans([r], Defaults(), env, t, [r], 4);
    var o := CompileV2.FormatOf(Defaults(), 4);
    assert CompileV2.IsFile([r], Defaults(), env, FileV2.File(t, o, CompileV2.UnitsFor([r], o, env.fp), env.crc));
  }
}
