# json-merge in Dafny

`json-merge.js` is a small command-line tool. It reads two JSON files, a
target and a source. It builds `Object.assign({}, source, target)` and writes
the result back over the target file with 4-space indentation. A name the
target has keeps the target's value. A name only the source has is added.
Nothing below the top level is merged.

This project models that tool:

- `Wrappers`: `Option` and `Result`.
- `AssocList`: an object's own properties as an association list in creation
  order (`Entries<K, V>`). `Put` is the ordinary-object [[Set]]: an existing
  name is overwritten in place, and a new name is appended. `CopyProps` is
  the copy loop of `Object.assign` for one argument. `Without` is an
  order-preserving filter.
- `Json`: the values `JSON.parse` returns, and the well-formedness they
  satisfy (no repeated name in any object).
- `ObjectAssign`: `Object.assign` on JSON values (section 20.1.2.1 of
  ECMA-262). Each argument goes through ToObject, which gives its own
  enumerable properties:
  - `null`, booleans and numbers give none;
  - strings and arrays give their decimal index names;
  - objects give their members.
- `JsonMerge`:
  - `Merge` builds the object the tool writes.
  - `Reference` is an independent description of the expected outcome, and
    the lemmas relate `Merge` to it.
  - `MergeFiles` is one run of the script. Reading a file is an
    `Option<string>` parameter. `JSON.parse` is a function parameter that
    returns `None` when it throws.

For a target `{"a":1,"b":2}` and a source `{"b":9,"c":3}` the tool writes
`{"b":2,"c":3,"a":1}`: the source is copied first, so its names come first
(`JsonMerge.MergeExample`).

## Model

`MergeProps(t, s)` is the property list of `Object.assign({}, source, target)`
once ToObject has given the target's own properties `t` and the source's own
properties `s`. A bridge lemma, `JsonMerge.MergeUnfold`, shows that the
value-level `Merge` has exactly these properties for every kind of value.
The lookup, domain, shallowness, order and map lemmas are stated over these
lists, so they cover objects, arrays and strings alike. Rows for operations
without a contract of their own name the lemmas that specify them.

| member | source | states |
|---|---|---|
| AssocList.CopyProps | json-merge.js:9 | the copy loop of `Object.assign` for one argument: each own property, in order, is set with [[Set]]; specified by CopyPropsKeys, CopyPropsGet, CopyPropsUnique and CopyPropsIdempotent |
| AssocList.Put | json-merge.js:9 | [[Set]] on an object keeps the names in place when the name exists and appends it otherwise |
| AssocList.PutGet | json-merge.js:9 | after [[Set]] the name holds the new value and every other name is unaffected |
| AssocList.CopyPropsKeys | json-merge.js:9 | copying keeps the receiving object's names in place, then appends the copied object's new names in its order |
| AssocList.CopyPropsGet | json-merge.js:9 | after copying, a copied name holds the copied value; any other name keeps its value |
| AssocList.CopyPropsUnique | json-merge.js:9 | copying never creates a repeated property name |
| AssocList.CopyPropsIdempotent | json-merge.js:9 | copying the result of a copy back onto the original receiver changes nothing, which is what a second run of line 9 computes |
| ObjectAssign.OwnProps | json-merge.js:9 | ToObject and the own enumerable properties of one argument: an object's members, an array's or string's index properties, nothing for null, booleans and numbers; specified by OwnPropsWellFormed, IndexedFromAt, IndexedFromGet, IndexedFromRange, IndexedFromUnique and CharsAt |
| ObjectAssign.Assign | json-merge.js:9 | `Object.assign(into, sources...)`: the arguments are copied onto `into` one after another, left to right; specified through Merge's lemmas |
| ObjectAssign.IndexKeyInjective | json-merge.js:9 | distinct array or string indices become distinct property names |
| ObjectAssign.IndexedFromAt | json-merge.js:9 | entry `i` of an array's or string's index properties is element `i` under the decimal name of its index, so the whole list is fixed |
| ObjectAssign.IndexedFromGet | json-merge.js:9 | looking up the name of index `i` finds element `i` |
| ObjectAssign.IndexedFromRange | json-merge.js:9 | an array or string exposes only the index names of its own elements |
| ObjectAssign.IndexedFromUnique | json-merge.js:9 | no index name of an array or string occurs twice |
| ObjectAssign.CharsAt | json-merge.js:9 | index `i` of a string holds the one-character string at position `i` |
| ObjectAssign.OwnPropsWellFormed | json-merge.js:9 | a value `JSON.parse` returns contributes distinct names with well-formed values, whatever its kind |
| JsonMerge.Merge | json-merge.js:9 | `Object.assign({}, source, target)`: a fresh object receives the source's and then the target's properties; specified by MergeMatchesReference, MergeIdempotent, MergeEmptySource, MergeEmptyTarget, MergeWellFormed and MergeExample |
| JsonMerge.MergeProps | json-merge.js:9 | the merged property list as a function of the two own-property lists; specified by MergeLookup, MergeDomain, MergeShallow, MergeOrder and MergeAsMapUnion |
| JsonMerge.Reference | json-merge.js:9 | independent description of the merged list: the source's names in source order with the target's value for shared names, then the target-only names; specified by ReferenceLookup and ReferenceUnique |
| JsonMerge.Overlay | json-merge.js:9 | the source part of the reference keeps exactly the source's names, in order; OverlayGet gives its values |
| JsonMerge.MergeMatchesReference | json-merge.js:9-10 | for parsed documents of any kind, the written object is the reference: the source's names first in source order (shared names with the target's value), then the target-only names in target order |
| JsonMerge.MergeLookup | json-merge.js:9 | the target's value, unchanged, wins for every target name; a source-only name holds the source's value |
| JsonMerge.MergeDomain | json-merge.js:9 | the merged names are exactly the union of the target's and the source's names, with no repeats |
| JsonMerge.MergeShallow | json-merge.js:9 | under a name where both hold objects, the result is the target's object; the source object's members are not merged in |
| JsonMerge.OverlayGet | json-merge.js:9 | the reference's source part holds the target's value for shared names and the source's value for the rest |
| JsonMerge.ReferenceLookup | json-merge.js:9 | the reference answers every lookup as target-wins-over-source |
| JsonMerge.MergeOrder | json-merge.js:9-10 | the merged object lists the source's names in source order, shared names with the target's value, then the target-only names in target order |
| JsonMerge.MergeAsMapUnion | json-merge.js:9 | read as maps, the result is the source's map overridden by the target's map |
| JsonMerge.MergeIdempotent | json-merge.js:9-10 | merging the same source into an already merged target changes nothing |
| JsonMerge.MergeEmptySource | json-merge.js:9 | a source with no properties leaves the target's properties; an object target is returned as is |
| JsonMerge.MergeEmptyTarget | json-merge.js:9 | a target with no properties yields the source's properties; an object source is returned as is |
| JsonMerge.MergePropsWellFormed | json-merge.js:9 | merging lists with unique names and well-formed values gives such a list again |
| JsonMerge.MergeWellFormed | json-merge.js:9-10 | merging two parsed values gives a value `JSON.parse` can return: no object at any depth repeats a name |
| JsonMerge.MergeExample | json-merge.js:9 | target {"a":1,"b":2} with source {"b":9,"c":3} gives {"b":2,"c":3,"a":1} |
| JsonMerge.MergeFiles | json-merge.js:7-10 | a result is written exactly when both files are read and parsed; the first failing step in script order names the error; a written value is exactly the reference object (source names first in source order, then target-only names), so every lookup is target-wins-over-source |

## Left out

- File reading and writing, and `process.argv`: the two file contents are
  parameters, and a `Success` stands for the write of line 10.
- JSON text: `JSON.parse` is an abstract parameter, and the text that
  `JSON.stringify(target, null, 4)` produces is not modelled. The model stops
  at the value that is serialised.
- JsonMerge.MergeOrder: states plain creation order. An ordinary object lists
  its integer-index names (such as `"0"` or `"12"`) first, in ascending
  numeric order, and only then its other names in creation order
  (OrdinaryOwnPropertyKeys, section 10.1.11.1 of ECMA-262). `Object.assign`
  and `JSON.stringify` both follow that own key order. The model keeps every
  name in creation order, so for names like `"0"` the stated order is not the
  one JavaScript produces. Without such names the two orders agree.
- JsonMerge.MergeMatchesReference: states the same creation order as
  MergeOrder, so the integer-index-first reordering described above is not
  modelled here either.
- JsonMerge.MergeFiles: the written object is pinned in creation order, so the
  integer-index-first reordering described above is not modelled for the
  written file either.
- AssocList.Put: does not model the `__proto__` accessor of
  `Object.prototype`. [[Set]] of `"__proto__"` creates no own property: an
  object or `null` value replaces the prototype, and any other value is
  ignored.
- Numbers are mathematical reals rather than IEEE doubles. The merge never
  inspects them.
- Strings are sequences of Unicode characters. A string argument's index
  properties are therefore per character, not per UTF-16 code unit.
- Duplicate names in the JSON text (where `JSON.parse` keeps the last) are not
  modelled: every parsed object is assumed to have unique names.
- `test/test.js` is browser and command-line test glue around a packaged
  application and is not part of this model.
