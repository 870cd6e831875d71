/** The weight-manifest half of `_patch_model_json`: weight names lose the
    `<model name>/` prefix Keras 3 puts in front of them, then the
    Bidirectional(LSTM) names are rewritten into the names TF.js looks up. A
    manifest is modelled by its weight names, group by group; the other fields
    of a weight entry are never touched by the patch. */
module WeightNames {
  import opened Wrappers
  import opened Text
  import opened ModelJson

  /** The name without `prefix` when it starts with it, the name itself otherwise. */
  function StripPrefix(name: string, prefix: string): (r: string)
    ensures StartsWith(name, prefix) ==> prefix + r == name
    ensures !StartsWith(name, prefix) ==> r == name
  {
    if StartsWith(name, prefix) then
      assert name == name[..|prefix|] + name[|prefix|..];
      name[|prefix|..]
    else name
  }

  /** The prefix rewrites, in the order they are tried: the old prefix names the
      LSTM cell inside a Bidirectional wrapper, the new one the name TF.js uses
      (the wrapped layer's name prefixed with `forward_` or `backward_`, and no
      `lstm_cell` segment). */
  const Replacements: seq<(string, string)> := [
    ("bidirectional/forward_lstm/lstm_cell/", "bidirectional/forward_forward_lstm/"),
    ("bidirectional/backward_lstm/lstm_cell/", "bidirectional/backward_forward_lstm/"),
    ("bidirectional_1/forward_lstm_1/lstm_cell/", "bidirectional_1/forward_forward_lstm_1/"),
    ("bidirectional_1/backward_lstm_1/lstm_cell/", "bidirectional_1/backward_forward_lstm_1/")
  ]

  /** Tries the rewrites in order; the first old prefix the name starts with is
      replaced by its new prefix and the rest are not tried. */
  function RenameWith(name: string, table: seq<(string, string)>): string
    decreases |table|
  {
    if table == [] then name
    else if StartsWith(name, table[0].0) then table[0].1 + name[|table[0].0|..]
    else RenameWith(name, table[1..])
  }

  function RenameLstm(name: string): string {
    RenameWith(name, Replacements)
  }

  /** The first matching entry decides the new name. */
  lemma {:induction false} RenameFirstMatch(name: string, table: seq<(string, string)>, k: nat)
    requires k < |table| && StartsWith(name, table[k].0)
    requires forall j :: 0 <= j < k ==> !StartsWith(name, table[j].0)
    ensures RenameWith(name, table) == table[k].1 + name[|table[k].0|..]
    ensures StartsWith(RenameWith(name, table), table[k].1)
    decreases k
  {
    if k > 0 {
      assert !StartsWith(name, table[0].0);
      RenameFirstMatch(name, table[1..], k - 1);
    }
    var r := table[k].1 + name[|table[k].0|..];
    assert r[..|table[k].1|] == table[k].1;
  }

  /** A name no entry matches is left as it is. */
  lemma {:induction false} RenameNoMatch(name: string, table: seq<(string, string)>)
    requires forall j :: 0 <= j < |table| ==> !StartsWith(name, table[j].0)
    ensures RenameWith(name, table) == name
    decreases |table|
  {
    if table != [] {
      assert !StartsWith(name, table[0].0);
      RenameNoMatch(name, table[1..]);
    }
  }

  /** Skipping an entry that does not match changes nothing. */
  lemma RenameSkip(name: string, table: seq<(string, string)>, r: nat)
    requires r < |table| && !StartsWith(name, table[r].0)
    ensures RenameWith(name, table[r..]) == RenameWith(name, table[r + 1..])
  {
    assert table[r..][1..] == table[r + 1..];
  }

  lemma StartsWithChar(s: string, prefix: string, d: nat)
    ensures StartsWith(s, prefix) && d < |prefix| ==> s[d] == prefix[d]
  {
    if StartsWith(s, prefix) && d < |prefix| {
      assert s[..|prefix|][d] == s[d];
    }
  }

  /** No new prefix begins with an old one: a rewritten name is never rewritten again. */
  lemma NewPrefixesAreFinal(k: nat, j: nat, rest: string)
    requires k < |Replacements| && j < |Replacements|
    ensures !StartsWith(Replacements[k].1 + rest, Replacements[j].0)
  {
    var s := Replacements[k].1 + rest;
    var o := Replacements[j].0;
    var n := Replacements[k].1;
    StartsWithChar(s, o, 13);
    StartsWithChar(s, o, 14);
    StartsWithChar(s, o, 22);
    StartsWithChar(s, o, 23);
    StartsWithChar(s, o, 24);
    StartsWithChar(s, o, 25);
    assert forall d :: 0 <= d < |n| ==> s[d] == n[d];
  }

  /** Renaming is idempotent: the patch can be applied to its own output. */
  lemma RenameLstmIdempotent(name: string)
    ensures RenameLstm(RenameLstm(name)) == RenameLstm(name)
  {
    if k :| 0 <= k < |Replacements| && StartsWith(name, Replacements[k].0) &&
            forall j :: 0 <= j < k ==> !StartsWith(name, Replacements[j].0) {
      RenameFirstMatch(name, Replacements, k);
      var rest := name[|Replacements[k].0|..];
      forall j | 0 <= j < |Replacements| ensures !StartsWith(RenameLstm(name), Replacements[j].0) {
        NewPrefixesAreFinal(k, j, rest);
      }
      RenameNoMatch(RenameLstm(name), Replacements);
    } else {
      forall j | 0 <= j < |Replacements| ensures !StartsWith(name, Replacements[j].0) {
        if StartsWith(name, Replacements[j].0) {
          FirstMatchExists(name, j);
        }
      }
      RenameNoMatch(name, Replacements);
    }
  }

  lemma FirstMatchExists(name: string, j: nat)
    requires j < |Replacements| && StartsWith(name, Replacements[j].0)
    ensures exists k :: 0 <= k <= j && StartsWith(name, Replacements[k].0) &&
                        forall i :: 0 <= i < k ==> !StartsWith(name, Replacements[i].0)
  {
    var k := 0;
    while !StartsWith(name, Replacements[k].0)
      invariant k <= j
      invariant forall i :: 0 <= i < k ==> !StartsWith(name, Replacements[i].0)
      decreases j - k
    {
      k := k + 1;
    }
  }

  /** The forward LSTM kernel of the first Bidirectional layer, as Keras 3 names
      it and as TF.js expects it. */
  lemma RenameLstmForwardExample()
    ensures RenameLstm("bidirectional/forward_lstm/lstm_cell/kernel") == "bidirectional/forward_forward_lstm/kernel"
  {
    RenameFirstMatch("bidirectional/forward_lstm/lstm_cell/kernel", Replacements, 0);
  }

  /** The backward LSTM bias of the second Bidirectional layer: only the fourth
      entry matches. */
  lemma RenameLstmBackwardExample()
    ensures RenameLstm("bidirectional_1/backward_lstm_1/lstm_cell/bias") == "bidirectional_1/backward_forward_lstm_1/bias"
  {
    var name := "bidirectional_1/backward_lstm_1/lstm_cell/bias";
    StartsWithChar(name, Replacements[0].0, 13);
    StartsWithChar(name, Replacements[1].0, 13);
    StartsWithChar(name, Replacements[2].0, 16);
    RenameFirstMatch(name, Replacements, 3);
  }

  /** A weight outside the Bidirectional layers keeps its name. */
  lemma RenameLstmDenseExample()
    ensures RenameLstm("dense/kernel") == "dense/kernel"
  {
    forall j | 0 <= j < |Replacements| ensures !StartsWith("dense/kernel", Replacements[j].0) {
      StartsWithChar("dense/kernel", Replacements[j].0, 0);
    }
    RenameNoMatch("dense/kernel", Replacements);
  }

  /** Applies `f` to every weight name, keeping the grouping. */
  function MapNames(groups: seq<seq<string>>, f: string -> string): seq<seq<string>> {
    seq(|groups|, g requires 0 <= g < |groups| =>
      seq(|groups[g]|, w requires 0 <= w < |groups[g]| => f(groups[g][w])))
  }

  /** The weight names of `weightsManifest`, one sequence per group, updated in place. */
  class WeightsManifest {
    var groups: seq<seq<string>>

    constructor(groups: seq<seq<string>>)
      ensures this.groups == groups
    {
      this.groups := groups;
    }

    /** Every name that starts with `modelName + "/"` loses that prefix. */
    method StripModelPrefix(modelName: string)
      modifies this
      ensures groups == MapNames(old(groups), n => StripPrefix(n, modelName + "/"))
    {
      var prefix := modelName + "/";
      ghost var target := MapNames(groups, n => StripPrefix(n, prefix));
      ghost var original := groups;
      var g := 0;
      while g < |groups|
        invariant 0 <= g <= |groups| == |original|
        invariant forall i :: 0 <= i < g ==> groups[i] == target[i]
        invariant forall i :: g <= i < |groups| ==> groups[i] == original[i]
      {
        var weights := groups[g];
        ghost var before := groups;
        var w := 0;
        while w < |weights|
          invariant groups == before
          invariant 0 <= w <= |weights| == |original[g]|
          invariant forall v :: 0 <= v < w ==> weights[v] == target[g][v]
          invariant forall v :: w <= v < |weights| ==> weights[v] == original[g][v]
        {
          var name := weights[w];
          if StartsWith(name, prefix) {
            weights := weights[w := name[|prefix|..]];
          }
          w := w + 1;
        }
        groups := groups[g := weights];
        g := g + 1;
      }
    }

    /** Every name is rewritten by the first entry of `Replacements` it matches. */
    method RenameLstmWeights()
      modifies this
      ensures groups == MapNames(old(groups), RenameLstm)
    {
      ghost var target := MapNames(groups, RenameLstm);
      ghost var original := groups;
      var g := 0;
      while g < |groups|
        invariant 0 <= g <= |groups| == |original|
        invariant forall i :: 0 <= i < g ==> groups[i] == target[i]
        invariant forall i :: g <= i < |groups| ==> groups[i] == original[i]
      {
        var weights := groups[g];
        ghost var before := groups;
        var w := 0;
        while w < |weights|
          invariant groups == before
          invariant 0 <= w <= |weights| == |original[g]|
          invariant forall v :: 0 <= v < w ==> weights[v] == target[g][v]
          invariant forall v :: w <= v < |weights| ==> weights[v] == original[g][v]
        {
          var name := weights[w];
          var r := 0;
          while r < |Replacements|
            invariant groups == before
            invariant 0 <= r <= |Replacements|
            invariant weights[w] == name
            invariant RenameWith(name, Replacements[r..]) == RenameLstm(name)
          {
            if StartsWith(name, Replacements[r].0) {
              weights := weights[w := Replacements[r].1 + name[|Replacements[r].0|..]];
              break;
            }
            RenameSkip(name, Replacements, r);
            r := r + 1;
          }
          w := w + 1;
        }
        groups := groups[g := weights];
        g := g + 1;
      }
    }
  }

  /** The whole in-memory patch after parsing: the topology is cleaned; when the
      document has a `weightsManifest`, its names lose the model-name prefix and
      then get the LSTM rewrite. A failure is raised before any name changes. */
  method PatchModel(topology: Json, manifest: WeightsManifest?) returns (result: Result<Json, PatchError>)
    modifies manifest
    ensures Clean(topology).Failure? ==> result == Clean(topology) && (manifest != null ==> manifest.groups == old(manifest.groups))
    ensures Clean(topology).Success? && manifest == null ==> result == Clean(topology)
    ensures Clean(topology).Success? && manifest != null ==>
              match ModelName(Clean(topology).value)
              case Failure(e) => result == Failure(e) && manifest.groups == old(manifest.groups)
              case Success(name) =>
                result == Clean(topology) &&
                manifest.groups == MapNames(MapNames(old(manifest.groups), n => StripPrefix(n, name + "/")), RenameLstm)
  {
    var cleaned := Clean(topology);
    if cleaned.Failure? {
      return cleaned;
    }
    if manifest != null {
      var modelName := ModelName(cleaned.value);
      if modelName.Failure? {
        return Failure(modelName.error);
      }
      manifest.StripModelPrefix(modelName.value);
      manifest.RenameLstmWeights();
    }
    return cleaned;
  }
}
