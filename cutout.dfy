/**
 * The request that `download_cutout` builds: the query parameters (one field
 * list per selected particle type, plus an optional `size`), the endpoint path
 * and the name of the output file; and the form's cube-size helper that appends
 * the `Mpc` unit.
 */
module Cutout {
  import opened Optional
  import opened PyStr

  /** An ordered dict of query parameters: Python keeps insertion order. */
  type Params = seq<(string, string)>

  const GasFields: string := "Coordinates,Velocities,ParticleIDs,Masses,InternalEnergy,Density,ElectronAbundance,NeutralHydrogenAbundance,SmoothingLength,StarFormationRate,Metallicity"
  const DarkMatterFields: string := "Coordinates,Velocities,ParticleIDs,Masses"
  const StarFields: string := "Coordinates,Velocities,ParticleIDs,Masses,StellarFormationTime,Metallicity"
  const BlackHoleFields: string := "Coordinates,Velocities,ParticleIDs,Masses,BlackHoleMass,BlackHoleAccretionRate"

  /** The fixed table from particle-type label to the fields requested for it. */
  const ParticleFields: Params := [
    ("Gas", GasFields),
    ("Halo", DarkMatterFields),
    ("Disk", DarkMatterFields),
    ("Bulge", DarkMatterFields),
    ("Stars", StarFields),
    ("Black Holes", BlackHoleFields)
  ]

  /** The labels the form offers for selection. */
  const DisplayLabels: seq<string> := [
    "PartType0 (Gas)",
    "PartType1 (Halo)",
    "PartType2 (Disk)",
    "PartType3 (Bulge)",
    "PartType4 (Stars)",
    "PartType5 (Black Holes)"
  ]

  const SizeKey: string := "size"

  /** Dict lookup: the value stored under `key`, if any. */
  function Lookup(params: Params, key: string): Option<string>
  {
    if params == [] then None
    else if params[0].0 == key then Some(params[0].1)
    else Lookup(params[1..], key)
  }

  predicate DistinctKeys(params: Params)
  {
    forall i, j :: 0 <= i < j < |params| ==> params[i].0 != params[j].0
  }

  lemma {:induction false} LookupAppend(a: Params, b: Params, key: string)
    ensures Lookup(a + b, key) == if Lookup(a, key).Some? then Lookup(a, key) else Lookup(b, key)
  {
    if a != [] {
      assert (a + b)[1..] == a[1..] + b;
      LookupAppend(a[1..], b, key);
    } else {
      assert a + b == b;
    }
  }

  lemma {:induction false} LookupFound(params: Params, key: string)
    ensures Lookup(params, key).Some? <==> exists p :: p in params && p.0 == key
  {
    if params != [] {
      LookupFound(params[1..], key);
      assert forall p :: p in params <==> p == params[0] || p in params[1..];
    }
  }

  lemma {:induction false} LookupAbsent(params: Params, key: string)
    requires forall p :: p in params ==> p.0 != key
    ensures Lookup(params, key) == None
  {
    if params != [] {
      assert params[0] in params;
      LookupAbsent(params[1..], key);
    }
  }

  /** `a` is `b` with some entries removed, the rest kept in their order. */
  predicate Subsequence(a: Params, b: Params)
    decreases |b|
  {
    if a == [] then true
    else if b == [] then false
    else (a[0] == b[0] && Subsequence(a[1..], b[1..])) || Subsequence(a, b[1..])
  }

  /**
   * The entries of `table`, in order, whose key is one of `datatypes` (exact string
   * equality). Looked up as a dict, a key is present exactly when it is selected,
   * with the table's value.
   */
  function Select(table: Params, datatypes: seq<string>): (r: Params)
    ensures Subsequence(r, table)
    ensures forall p :: p in r <==> p in table && p.0 in datatypes
    ensures forall key :: Lookup(r, key) == if key in datatypes then Lookup(table, key) else None
  {
    if table == [] then []
    else
      var rest := Select(table[1..], datatypes);
      var head := table[0];
      if head.0 in datatypes then
        var r := [head] + rest;
        assert r[0] == head && r[1..] == rest;
        r
      else
        rest
  }

  /** Selecting from a table with distinct labels keeps the labels distinct. */
  lemma {:induction false} SelectDistinct(table: Params, datatypes: seq<string>)
    requires DistinctKeys(table)
    ensures DistinctKeys(Select(table, datatypes))
  {
    if table != [] {
      var rest := Select(table[1..], datatypes);
      SelectDistinct(table[1..], datatypes);
      var head := table[0];
      forall p | p in rest ensures p.0 != head.0 {
        var j :| 0 <= j < |table[1..]| && table[1..][j] == p;
        assert table[j + 1] == p;
      }
    }
  }

  /** The particle-type part of the query: `{k: v for k, v in all_params.items() if k in datatypes}`. */
  function FieldParams(datatypes: seq<string>): Params
  {
    Select(ParticleFields, datatypes)
  }

  /** The six labels are distinct, and `size` is not one of them. */
  lemma TableFacts()
    ensures DistinctKeys(ParticleFields)
    ensures forall p :: p in ParticleFields ==> p.0 != SizeKey
  {
  }

  /** Python truthiness of the optional cube size: present and not empty. */
  predicate Truthy(cubeSize: Option<string>)
  {
    cubeSize.Some? && cubeSize.value != []
  }

  /**
   * The full query: the selected field lists in table order, then `size` when the
   * cube size is truthy. Keys are distinct, as in a dict; a key is present only if
   * it is a selected table label or `size`.
   */
  function RequestParams(datatypes: seq<string>, cubeSize: Option<string>): (r: Params)
    ensures DistinctKeys(r)
    ensures forall key :: Lookup(r, key) ==
              if key == SizeKey then (if Truthy(cubeSize) then Some(cubeSize.value) else None)
              else if key in datatypes then Lookup(ParticleFields, key)
              else None
    ensures Truthy(cubeSize) ==> |r| > 0 && r[|r| - 1] == (SizeKey, cubeSize.value)
    ensures Subsequence(if Truthy(cubeSize) then r[..|r| - 1] else r, ParticleFields)
  {
    var fields := FieldParams(datatypes);
    TableFacts();
    LookupAbsent(ParticleFields, SizeKey);
    SelectDistinct(ParticleFields, datatypes);
    if Truthy(cubeSize) then
      SizeAppended(datatypes, cubeSize.value);
      var r := fields + [(SizeKey, cubeSize.value)];
      assert r[..|r| - 1] == fields;
      r
    else
      fields
  }

  lemma SizeAppended(datatypes: seq<string>, size: string)
    requires DistinctKeys(FieldParams(datatypes))
    ensures var r := FieldParams(datatypes) + [(SizeKey, size)];
            && DistinctKeys(r)
            && forall key :: Lookup(r, key) == if key == SizeKey then Some(size)
                                               else if key in datatypes then Lookup(ParticleFields, key) else None
  {
    var fields := FieldParams(datatypes);
    var r := fields + [(SizeKey, size)];
    FieldsWithoutSize(datatypes);
    forall i, j | 0 <= i < j < |r| ensures r[i].0 != r[j].0 {
      if j == |fields| {
        assert r[i] in fields;
      }
    }
    forall key ensures Lookup(r, key) == if key == SizeKey then Some(size)
                                         else if key in datatypes then Lookup(ParticleFields, key) else None {
      LookupAppend(fields, [(SizeKey, size)], key);
    }
  }

  /** No selected field entry is labelled `size`. */
  lemma FieldsWithoutSize(datatypes: seq<string>)
    ensures forall p :: p in FieldParams(datatypes) ==> p.0 != SizeKey
    ensures Lookup(FieldParams(datatypes), SizeKey) == None
  {
    TableFacts();
    LookupAbsent(ParticleFields, SizeKey);
  }

  /** The label set of the table: exactly six labels. */
  function TableLabels(): set<string>
  {
    set p | p in ParticleFields :: p.0
  }

  /** Looked up in the table, a label is found exactly when it is one of the six. */
  lemma TableLookup(key: string)
    ensures Lookup(ParticleFields, key).Some? <==> key in TableLabels()
  {
    LookupFound(ParticleFields, key);
  }

  /**
   * No label outside the table ever reaches the query, and each selected table
   * label brings exactly its fixed field list.
   */
  lemma SelectedLabels(datatypes: seq<string>, cubeSize: Option<string>, key: string)
    ensures key != SizeKey && key !in TableLabels() ==> Lookup(RequestParams(datatypes, cubeSize), key) == None
    ensures key in TableLabels() ==>
              (Lookup(RequestParams(datatypes, cubeSize), key).Some? <==> key in datatypes)
  {
    var r := RequestParams(datatypes, cubeSize);
    TableLookup(key);
    if key != SizeKey {
      assert Lookup(r, key) == if key in datatypes then Lookup(ParticleFields, key) else None;
    }
  }

  /**
   * The form's labels (`PartType0 (Gas)` ...) are none of the table's labels, so a
   * selection made from them requests no field list at all.
   */
  lemma DisplayLabelsSelectNothing(datatypes: seq<string>)
    requires forall d :: d in datatypes ==> d in DisplayLabels
    ensures FieldParams(datatypes) == []
  {
    DisplayLabelsOutsideTable();
    var r := FieldParams(datatypes);
    assert forall p :: p in r ==> p.0 in TableLabels() && p.0 in datatypes;
  }

  /** The six table labels, written out. */
  lemma TableLabelsListed()
    ensures TableLabels() == {"Gas", "Halo", "Disk", "Bulge", "Stars", "Black Holes"}
  {
  }

  /** No form label is a table label. */
  lemma DisplayLabelsOutsideTable()
    ensures forall d :: d in DisplayLabels ==> d !in TableLabels()
  {
    TableLabelsListed();
  }

  /** The form's cube-size text: stripped, with the unit appended, or empty. */
  function CubeSizeText(input: string): (r: string)
    ensures r == [] <==> AllSpace(input)
    ensures r != [] ==> r == Strip(input) + "Mpc"
  {
    var t := Strip(input);
    if t != [] then t + "Mpc" else t
  }

  /** Through the form, `size` is sent exactly when the entry is not blank, with the unit. */
  lemma FormSizeParam(datatypes: seq<string>, input: string)
    ensures Lookup(RequestParams(datatypes, Some(CubeSizeText(input))), SizeKey)
         == if AllSpace(input) then None else Some(Strip(input) + "Mpc")
  {
  }

  /** Path segment and file prefix for the two object kinds. */
  function ObjectSegment(isSubhalo: bool): string
  {
    if isSubhalo then "subhalos" else "halos"
  }

  function ObjectPrefix(isSubhalo: bool): (prefix: string)
    ensures ObjectSegment(isSubhalo) == prefix + "s"
  {
    if isSubhalo then "subhalo" else "halo"
  }

  /** The cutout endpoint under the service root. */
  function Endpoint(simulation: string, snapshot: string, objectId: string, isSubhalo: bool): string
  {
    simulation + "/snapshots/" + snapshot + "/" + ObjectSegment(isSubhalo) + "/" + objectId + "/cutout.hdf5"
  }

  /**
   * When no identifier contains `/`, the endpoint has exactly six path segments:
   * the simulation, `snapshots`, the snapshot, the object kind, the object id and
   * `cutout.hdf5`.
   */
  lemma EndpointSegments(simulation: string, snapshot: string, objectId: string, isSubhalo: bool)
    requires '/' !in simulation && '/' !in snapshot && '/' !in objectId
    ensures Split(Endpoint(simulation, snapshot, objectId, isSubhalo), '/')
         == [simulation, "snapshots", snapshot, ObjectSegment(isSubhalo), objectId, "cutout.hdf5"]
  {
    var kind := ObjectSegment(isSubhalo);
    var e := Endpoint(simulation, snapshot, objectId, isSubhalo);
    assert e == simulation + ['/'] + ("snapshots" + ['/'] + (snapshot + ['/'] + (kind + ['/'] + (objectId + ['/'] + "cutout.hdf5"))));
    assert '/' !in "snapshots" && '/' !in kind && '/' !in "cutout.hdf5";
    SplitSix(simulation, "snapshots", snapshot, kind, objectId, "cutout.hdf5");
  }

  lemma SplitSix(a: string, b: string, c: string, d: string, e: string, f: string)
    requires '/' !in a && '/' !in b && '/' !in c && '/' !in d && '/' !in e && '/' !in f
    ensures Split(a + ['/'] + (b + ['/'] + (c + ['/'] + (d + ['/'] + (e + ['/'] + f)))), '/') == [a, b, c, d, e, f]
  {
    var s5 := e + ['/'] + f;
    var s4 := d + ['/'] + s5;
    var s3 := c + ['/'] + s4;
    var s2 := b + ['/'] + s3;
    SplitOnce(e, f, '/');
    SplitFirst(d, s5, '/');
    SplitFirst(c, s4, '/');
    SplitFirst(b, s3, '/');
    SplitFirst(a, s2, '/');
  }

  /** The output file for a successful download. */
  function Filename(objectId: string, isSubhalo: bool): string
  {
    ObjectPrefix(isSubhalo) + "_" + objectId + "_cutout.hdf5"
  }

  /**
   * Two downloads with a different object id or a different object kind never
   * share an output file. The name leaves out simulation, snapshot, datatypes and
   * cube size, so downloads that differ only in those do write the same file.
   */
  lemma FilenameInjective(id1: string, sub1: bool, id2: string, sub2: bool)
    requires Filename(id1, sub1) == Filename(id2, sub2)
    ensures id1 == id2 && sub1 == sub2
  {
    var f := Filename(id1, sub1);
    assert f[0] == (if sub1 then 's' else 'h');
    assert f[0] == (if sub2 then 's' else 'h');
    var n := |ObjectPrefix(sub1)| + 1;
    assert id1 == f[n..|f| - 12];
    assert id2 == f[n..|f| - 12];
  }
}
