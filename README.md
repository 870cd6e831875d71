# SignAssist training tools: a verified model of the data shaping

SignAssist trains a Bidirectional LSTM gesture classifier from recorded hand
landmarks and exports it for TF.js. This project models the data-shaping core
of its two training scripts in Dafny and proves what each step produces:

- `prepare_dataset` (training/train_model.py): builds the sorted label
  vocabulary, skips empty samples and samples of the wrong width, widens
  63-feature single-hand frames to 126, and forces every sample to exactly
  `SEQUENCE_LENGTH` = 30 frames. Short samples repeat their last frame; long
  ones are downsampled with linspace indices. Modelled as the imperative loop
  `Dataset.PrepareDataset`, proved against the specification function
  `Dataset.Prepared`.
- `_patch_model_json` (training/train_model.py), its in-memory rewrites:
  - the textual `"batch_shape":` to `"batch_input_shape":` replacement;
  - the recursive `_clean` of the model topology (`ModelJson`);
  - the model-name prefix strip and the first-match Bidirectional-LSTM rename
    of weight names, as in-place passes of the `WeightNames.WeightsManifest`
    class;
  - `WeightNames.PatchModel`, the steps after parsing: clean the topology,
    strip the model-name prefix, rename the LSTM weights. The textual rename
    comes before parsing and is `ModelJson.RenameBatchShape`.
- The packing loop of `extract_frames` (training/extract_from_video.py): up to
  two hands of 21 (x, y, z) landmarks written into a 126-slot vector
  (`FramePacking.PackFrame`, over an array).
- `build_sequences` (training/extract_from_video.py): a short clip is extended
  in place with copies of its last frame; a long one is cut into sliding
  windows (`Windowing.BuildSequences`, over the `FrameList` class).

Landmark coordinates are an opaque element type `V`, and `zero` stands for `0.0`.

Modules:

- `Wrappers`: `Option` and `Result`.
- `Text`: prefixes, Python's `str.replace`, and code-point string order.
- `Arith`: integer division facts.
- `Frames`: shared constants and padding with the last element.
- `Dataset`, `FramePacking`, `Windowing`, `ModelJson`, `WeightNames`: the model itself.

## Model

| member | source | states |
|---|---|---|
| Text.ReplaceAll | training/train_model.py:371 | Python's `str.replace`: a left-to-right scan replacing each non-overlapping occurrence and copying every other character; its properties are stated by `ReplaceAllWithoutPattern`, `RenameBatchShapeComplete` and `RenameBatchShapeReversible` |
| Text.ReplaceAllWithoutPattern | training/train_model.py:371 | `str.replace` leaves text without an occurrence of the pattern unchanged |
| Text.StrLess | training/train_model.py:92 | the order `sorted` uses on `str`: a proper prefix first, otherwise the first differing code point decides; its properties are `StrLessTotal`, `StrLessTransitive` and `StrLessIrreflexive` |
| Text.InsertSorted | training/train_model.py:92 | inserting into a strictly sorted label list keeps it strictly sorted, and its elements become the old ones plus the new label |
| Text.StrLessTotal | training/train_model.py:92 | code-point string order is total and asymmetric, as `sorted` on `str` needs |
| Text.StrLessTransitive | training/train_model.py:92 | code-point string order is transitive |
| Text.StrictlySortedUnique | training/train_model.py:92 | two strictly sorted lists with the same elements are equal, so `sorted(set(...))` is determined by the set |
| Frames.PadWithLast | training/train_model.py:118-121 | the result is `n` long, starts with the input, and every added entry is a copy of the input's last element |
| Frames.PadWithLastStep | training/extract_from_video.py:192-193 | padding to `m+1` is padding to `m` with one more copy of the last element appended, as each `append(frames[-1])` does |
| Dataset.Vocabulary | training/train_model.py:92 | the label list is strictly sorted (so no duplicates) and holds exactly the labels of the samples |
| Dataset.VocabularyIsSortedLabelSet | training/train_model.py:92 | any strictly sorted list of exactly the sample labels equals the vocabulary |
| Dataset.LabelIndex | training/train_model.py:93 | the index map's keys are exactly the labels, and each label maps to its own position in the list |
| Dataset.Widen | training/train_model.py:108-111 | every frame keeps its values as a prefix and gets 63 zeros appended |
| Dataset.UpgradeWidth | training/train_model.py:106-115 | the first frame's width decides: a 126-wide sample is returned unchanged; a 63-wide one keeps every frame's values as a prefix and gets 63 zeros appended; any other width is skipped; uniform widths all become 126 |
| Dataset.LinspaceIndex | training/train_model.py:125 | every downsampling index stays below the clip length |
| Dataset.DownsampleIndices | training/train_model.py:123-126 | the downsampling indices start at 0, end at n-1 and strictly increase |
| Dataset.Downsample | training/train_model.py:125-126 | a long clip becomes 30 frames, frame k taken from the k-th linspace index; the first and last frames are kept |
| Dataset.FitLength | training/train_model.py:117-129 | the fitted sample has exactly 30 frames, each one a frame of the input |
| Dataset.NormaliseSample | training/train_model.py:98-129 | a sample is kept if and only if it has frames and its first frame is 63 or 126 wide; a kept sample has exactly 30 frames |
| Dataset.NormalisedFrames | training/train_model.py:117-129 | a short sample keeps its frames as a prefix and repeats its last frame; a 30-frame sample is unchanged; a long one takes the linspace frames |
| Dataset.NormalisedWidth | training/train_model.py:106-129 | a kept sample with uniform frame widths yields frames that are all 126 wide |
| Dataset.Prepared | training/train_model.py:98-130 | the `(frames, label)` entries the loop appends, sample by sample, skipping samples that do not normalise; characterised by `PreparedFromSamples`, `PreparedAllKept` and `PreparedLength` |
| Dataset.KeptIndices | training/train_model.py:101-115 | the positions of the kept samples: strictly increasing, in range, and a position is listed exactly when its sample is neither empty nor of a wrong width |
| Dataset.PreparedLength | training/train_model.py:117-129 | every entry of the prepared dataset has exactly 30 frames |
| Dataset.PreparedFromSamples | training/train_model.py:98-130 | entry j is the j-th kept sample normalised, with its own label: one entry per kept sample, none for a skipped one, in sample order |
| Dataset.PreparedAllKept | training/train_model.py:98-130 | when no sample is skipped, entry k is sample k normalised, with its label: nothing is reordered or lost |
| Dataset.PrepareDataset | training/train_model.py:83-144 | the labels are the vocabulary; `X` and `y` are the prepared entries, in order (one per kept sample, by `PreparedFromSamples`); every `X` entry has 30 frames; every `y` entry indexes its own sample's label |
| FramePacking.Slot | training/extract_from_video.py:159-170 | what one slot of the vector holds: slot i belongs to hand i/63, landmark (i%63)/3, coordinate i%3, and holds `zero` when that hand or landmark was not detected |
| FramePacking.Packed | training/extract_from_video.py:159-170 | the 126-slot vector of one frame, slot by slot; characterised by `PackedLayout`, `PackedUndetectedHand`, `PackedNoHands` and `PackedIgnoresExtraHands` |
| FramePacking.PackedLayout | training/extract_from_video.py:159-170 | the vector has 126 entries, and coordinate c of landmark l of hand h sits at index `h*63 + l*3 + c` |
| FramePacking.PackedUndetectedHand | training/extract_from_video.py:159-161 | every slot of a hand that was not detected stays zero |
| FramePacking.PackedNoHands | training/extract_from_video.py:159-161 | a frame with no hands is the all-zero vector |
| FramePacking.PackedIgnoresExtraHands | training/extract_from_video.py:162-164 | detections beyond the second hand do not change the vector |
| FramePacking.PackFrame | training/extract_from_video.py:159-172 | the array filled by the nested loops is exactly the packed layout |
| Windowing.WindowStep | training/extract_from_video.py:196 | the step is at least 1, and it equals the truncated value when that is positive |
| Windowing.WindowsFrom | training/extract_from_video.py:199-200 | the slices the stepped `for` loop appends, from offset `start` while a whole window fits; characterised by `WindowsFromShape` |
| Windowing.Sequences | training/extract_from_video.py:187-202 | what `build_sequences` returns: nothing, one padded window, or the sliding windows; characterised by `SequencesShape` |
| Windowing.WindowsFromCount | training/extract_from_video.py:199 | `range(start, n-L+1, step)` yields `(n-L-start)/step + 1` offsets, so there are that many windows |
| Windowing.WindowsFromAt | training/extract_from_video.py:199-200 | window k is the slice `frames[start+k*step .. start+k*step+L)`, and it lies within the clip |
| Windowing.WindowsFromShape | training/extract_from_video.py:199-200 | from offset `start` there are `(n-L-start)/step + 1` windows, window k being the slice at `start + k*step` |
| Windowing.SequencesShape | training/extract_from_video.py:187-202 | an empty clip gives nothing; a short clip gives one L-frame window padded with its last frame; otherwise there are `(n-L)/step+1` windows, window k is `frames[k*step..k*step+L)`, the first starts at 0 and none runs past the end |
| Windowing.BuildSequences | training/extract_from_video.py:178-202 | the result is the windows of the original clip, and a short clip's list is padded in place to L frames; any other list is left unchanged |
| ModelJson.Get | training/train_model.py:379-383 | `dict.get(key)`: present exactly when the key is, and then the value of a field with that key |
| ModelJson.GetOr | training/train_model.py:380-383 | `dict.get(key, default)`: the default exactly when the key is absent, otherwise the value of a field with that key |
| ModelJson.IsDTypePolicy | training/train_model.py:379 | the test for a dtype policy: `class_name` is "DTypePolicy" and there is a `config` |
| ModelJson.IsModuleRef | training/train_model.py:382 | the test for a module-style reference: `module`, `class_name` and `registered_name` are all present |
| ModelJson.Find | training/train_model.py:379-383 | a found index holds the key, and no index is found exactly when no field has the key |
| ModelJson.KeptFields | training/train_model.py:384-388 | every kept field is a field of the input whose key is not one of the four dropped keys |
| ModelJson.KeptFieldsKeys | training/train_model.py:385-388 | the kept keys are exactly the input keys minus the four dropped keys |
| ModelJson.Clean | training/train_model.py:376-392 | the only error `_clean` can raise is a dtype policy whose config is not a dict |
| ModelJson.CleanArray | training/train_model.py:390-391 | a list is cleaned element-wise: it succeeds exactly when every element does, and keeps length and order |
| ModelJson.GetAppend | training/train_model.py:379-383 | fields added after a key that is present do not change what `.get` finds for it |
| ModelJson.CleanDTypePolicyFirst | training/train_model.py:379-382 | the dtype-policy test comes first: a dtype policy cleans the same whatever further keys it carries, including those of a module-style reference |
| ModelJson.CleanDTypePolicyDefault | training/train_model.py:379-380 | a dtype policy whose config has no `name` becomes "float32", even when it also carries `module` and `registered_name` |
| ModelJson.CleanDTypePolicyCollapses | training/train_model.py:379-380 | a dtype policy cleans successfully exactly when its config is a dict, and then collapses to a plain value rather than a dict or list |
| ModelJson.CleanEmptyObject | training/train_model.py:383 | the default `{}` config cleans to `{}` |
| ModelJson.CleanModuleRef | training/train_model.py:381-383 | a module-style reference that is not a dtype policy becomes exactly `{class_name, config: _clean(config or {})}` |
| ModelJson.CleanObject | training/train_model.py:384-389 | any other dict keeps exactly its non-dropped keys, each holding its original value cleaned |
| ModelJson.CleanSucceeds | training/train_model.py:376-392 | a tree in which no dict is a dtype policy with a non-dict config cleans successfully |
| ModelJson.CleanMakesTfjsShaped | training/train_model.py:376-394 | a successful clean leaves no dropped key and no module-style reference anywhere in the tree |
| ModelJson.Lookup | training/train_model.py:400-403 | `.get` succeeds exactly on a dict |
| ModelJson.At | training/train_model.py:400-403 | the value at a key path through nested dicts when every key is present, with no defaults |
| ModelJson.ModelName | training/train_model.py:399-404 | the name at `model_config.config.name` when it is a string; "sequential" when `model_config`, `config` or `name` is missing; `LookupOnNonObject` exactly when the topology, `model_config` or `config` is present but not a dict; `ModelNameNotString` exactly when the name is present but not a string |
| ModelJson.RenameBatchShape | training/train_model.py:371 | `raw.replace('"batch_shape":', '"batch_input_shape":')`; its properties are the four `RenameBatchShape…` lemmas below |
| ModelJson.RenameBatchShapeComplete | training/train_model.py:370-371 | after the rename, no `"batch_shape":` remains anywhere in the text |
| ModelJson.RenameBatchShapeReversible | training/train_model.py:370-371 | replacing `"batch_input_shape":` back with `"batch_shape":` restores the original text, for text that did not already contain the new key |
| ModelJson.RenameBatchShapeUnchanged | training/train_model.py:371 | text without `"batch_shape":` passes through unchanged |
| ModelJson.RenameBatchShapeIdempotent | training/train_model.py:371 | renaming twice is the same as renaming once |
| WeightNames.StripPrefix | training/train_model.py:407-408 | a name with the prefix is the prefix followed by the result; a name without it is unchanged |
| WeightNames.RenameWith | training/train_model.py:428-432 | the inner `for` over a rewrite table with `break`: the first entry whose old prefix the name starts with rewrites it, later entries are not tried |
| WeightNames.RenameLstm | training/train_model.py:419-432 | `RenameWith` over the four-entry Bidirectional-LSTM table; characterised by `RenameFirstMatch`, `RenameNoMatch` and `RenameLstmIdempotent` |
| WeightNames.RenameFirstMatch | training/train_model.py:428-432 | the first table entry whose old prefix matches replaces that prefix by its new one, keeping the suffix |
| WeightNames.RenameNoMatch | training/train_model.py:428-432 | a name that matches no entry is unchanged |
| WeightNames.NewPrefixesAreFinal | training/train_model.py:419-424 | no new prefix starts with any old prefix |
| WeightNames.RenameLstmIdempotent | training/train_model.py:419-432 | a renamed name is never renamed again |
| WeightNames.RenameLstmForwardExample | training/train_model.py:410-424 | `bidirectional/forward_lstm/lstm_cell/kernel` becomes `bidirectional/forward_forward_lstm/kernel` (first entry) |
| WeightNames.RenameLstmBackwardExample | training/train_model.py:410-424 | `bidirectional_1/backward_lstm_1/lstm_cell/bias` becomes `bidirectional_1/backward_forward_lstm_1/bias`: the first three entries do not match, the fourth does |
| WeightNames.RenameLstmDenseExample | training/train_model.py:410-424 | `dense/kernel` matches no entry and keeps its name |
| WeightNames.WeightsManifest.StripModelPrefix | training/train_model.py:404-408 | every weight name, in every group, is replaced by its prefix-stripped form; the grouping is kept |
| WeightNames.WeightsManifest.RenameLstmWeights | training/train_model.py:426-432 | every weight name, in every group, is replaced by its first-match rename; the grouping is kept |
| WeightNames.PatchModel | training/train_model.py:394-432 | the result is the cleaned topology; with a manifest, its names are prefix-stripped and then renamed; when cleaning or the model-name lookup fails, the names are unchanged |

## Left out

- `load_samples`, `build_model`, `train`, `_manual_export_tfjs`, `_augment_sequence`, `_ensure_model_downloaded`, `_create_hand_landmarker`, `process_videos` and `main`: file and video I/O, TensorFlow, scikit-learn, MediaPipe, randomness and argument parsing.
- The console messages of every modelled function are not modelled.
- The file read and write around `_patch_model_json`, and `json.loads`/`json.dump`: the model works on the text and on a parsed value.
- `model["modelTopology"]` raising when the document has no topology: the topology is a parameter.
- `extract_frames`: the OpenCV read loop and the MediaPipe detection. The detected hands of one frame are a parameter; appending each vector to the frame list is not modelled separately.
- FramePacking.PackFrame: requires at most 21 landmarks for each of the first two hands, as the hand tracker guarantees. In the source, a first hand with 22 to 42 landmarks would spill into the second hand's slots, and a landmark whose first slot would be 126 or beyond makes `vec[base] = lm.x` raise `IndexError`.
- Windowing.BuildSequences: takes the already truncated `int(sequence_length * (1.0 - overlap))` as an integer. The float computation is not modelled.
- Dataset.LinspaceIndex: the exact floor of `i*(n-1)/29`. `np.linspace` computes in floating point, and its rounding is not modelled.
- Dataset.PrepareDataset:
  - returns nested sequences rather than numpy arrays;
  - does not model the `float32`/`int32` conversion;
  - does not model the error numpy raises on frames of unequal width;
  - every sample is assumed to have a `label` and a `landmarks` key.
- WeightNames.WeightsManifest: a manifest is modelled by its weight names only. Not modelled:
  - a group without `weights`;
  - a weight without a `name`, or with a name that is not a string (`w["name"]` raises in the prefix strip);
  - the shapes and dtypes of the weights, which the patch never changes.
- ModelJson.CleanObject: requires distinct keys in the dict, as a parsed JSON object has. In the source a dict cannot hold a key twice.
- ModelJson.CleanMakesTfjsShaped: requires every `class_name` and `name` value in the tree to be a plain value, as in a Keras export. `_clean` copies only two such values without cleaning them: a module-style reference's `class_name` and a dtype policy's `config["name"]`; every other `class_name` or `name` value is cleaned like any other value. For simplicity the requirement is made of every such key.
