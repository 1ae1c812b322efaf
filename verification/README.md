# Reverse dictionary lookup of CropClim's crop-mapping utilities

CropClim assembles satellite feature layers for a crop-mapping classifier. Apart
from calls into external geospatial libraries, the only self-contained logic is
`get_key(v, dict_)` in `CropMapping/utils.py`: a reverse dictionary lookup that
walks the dictionary's items in insertion order and returns the key of the first
entry whose value equals `v`, falling off the end of the loop (Python's implicit
`None`) when no value matches.

This project models that function and proves what it promises.

- `options.dfy` (module `Options`): `Option<T>`, the explicit form of the
  implicit `None`. A found key is `Some(k)` even when `k` would be Python's
  `None`, so "found the key `None`" and "no match" stay distinct. Python
  conflates the two.
- `dict.dfy` (module `Dict`): an insertion-ordered Python `dict` as its
  `items()` sequence `seq<(K, V)>`. It defines `Keys`, `Values`, `DistinctKeys`
  (every real dictionary has distinct keys), the key position `IndexOfKey`, and
  `Lookup` (`dict_.get(k)`). `IndexOfKey` and `Lookup` are both defined
  through `FirstIndex`, which also gives the value position `GetKey` uses.
- `utils.dfy` (module `Utils`): `GetKey`, a pure recursive function with the
  same branches as the source loop. `GetKeyScan` is the loop-with-early-return
  form, proved equal to `GetKey`. The lemmas relate `GetKey` to the dictionary's
  forward lookup.

When no value matches, the loop ends and Python returns `None` implicitly;
`GetKey` returns `None`.

## Model

| member | source | states |
|---|---|---|
| Utils.GetKey | CropMapping/utils.py:5-8 | The result is `None` exactly when `v` is not among the dictionary's values. Otherwise it is the key of the entry at the first position where `v` occurs among the values. Keys are never compared. |
| Utils.GetKeyScan | CropMapping/utils.py:5-8 | The loop over `items()` that returns at the first value equal to `v`, and otherwise returns `None` after the loop, computes exactly `GetKey`. |
| Utils.GetKeyMapsToValue | CropMapping/utils.py:6-8 | A found key is a key of the dictionary, and the dictionary's value under it equals `v`. |
| Utils.GetKeyIsFirstKey | CropMapping/utils.py:6-8 | For every `k`, in both directions: the result is `Some(k)` exactly when `dict_[k] == v` and no entry before `k` in iteration order has value `v`. When several keys share the value, the earliest one wins. |
| Utils.GetKeyNoneIffNoKeyMaps | CropMapping/utils.py:5-8 | The result is `None` exactly when no key maps to `v`. The empty dictionary is included. |
| Utils.GetKeyAppend | CropMapping/utils.py:6-8 | Looking up in `d + e` gives `d`'s result when `d` has a match, and `e`'s result otherwise. Entries added after the first match never change the result. |
| Utils.GetKeyPosition | CropMapping/utils.py:6-8 | In a dictionary, a found key's position in iteration order is the first position where `v` occurs among the values. |
| Utils.GetKeyIgnoresKeys | CropMapping/utils.py:7 | Two dictionaries with the same values in the same order both find a match or both do not. When they find one, it is at the same position, whatever the keys are. |
| Utils.GetKeyExample | CropMapping/utils.py:6-8 | `get_key(2, {"a": 1, "b": 2, "c": 2})` is `"b"`. |

## Left out

- `feature_layers` (`CropMapping/feature_collection.py`) is not part of this model. It opens a datacube session and loads the crop mask and Sentinel-1/Sentinel-2 data through external libraries. It then masks, resamples to monthly means, computes spectral indices and the `CI = red / nir` band in floating point, names layers from numpy's date strings, and merges with xarray's `compat="override"`. The semantics of all these steps are defined by the external `datacube`, `deafrica_tools` and `xarray` libraries.
- Python equality corner cases are not modelled: a user-defined `__eq__`, `1 == True`, NaN unequal to itself, and an `==` that raises or returns a non-bool (`if value == v:` truth-tests the result, so numpy array values raise `ValueError`). Values are a generic type compared with Dafny's decidable equality, which always yields a bool.
- Utils.GetKeyNoneIffNoKeyMaps: holds of the model, not of the Python result when the found key is itself `None`. The model returns `Some(k)` for any found key, while Python returns `None`, so `get_key(1, {None: 1})` is indistinguishable from no match there.
- The read-only property has no member of its own. The dictionary is an immutable value and `GetKey` is a pure function, so the mapping cannot change and the result depends only on `v` and the items sequence.
- Iteration order is taken to be insertion order, as Python 3.7 and later guarantee. Mutating the dictionary during the loop is not modelled.
