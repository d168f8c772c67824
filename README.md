# type-collections as value-level Dafny

The repository is a library of TypeScript type-level functions. Each one is a
recursive conditional type, a mapped type or an indexed access that the type
checker evaluates at compile time. If the inputs are literal (literal strings,
fixed-length tuples of literals, finite unions of literals, object types with
literal keys), each operator is a total, terminating function. This project
models the reshaping operators of `src/index.d.ts` as plain Dafny functions on
values:

- a finite union is a `set<T>`;
- a fixed-length tuple is a `seq<T>`;
- an object type with literal keys is a `map`;
- a literal string is a `string`.

Modules:

- `Strings` (strings.dfy): `Join` and `Split`.
  - `MatchSep` encodes the template-literal match `${infer F}${Sep}${infer R}`
    directly. With a non-empty separator, `F` is the prefix before the leftmost
    occurrence of `Sep`. With `Sep` empty, `F` takes exactly one character, and
    the empty string does not match.
  - `Occurrences` is an independent left-to-right count of non-overlapping
    occurrences, used for the law about the number of pieces.
- `Collections` (collections.dfy): `T2U`, and `U2T` as a ghost function.
  - `U2T` places an arbitrary member (`:|`, standing for `OneOf`) after the
    tuple of the others, as `_U2T` does. Its contract promises only a
    duplicate-free tuple whose element set is the union.
- `Permutations` (permutations.dfy): `U2P` and `_U2P` (`U2PFrom`), as mutually
  recursive functions.
- `Tuples` (tuples.dfy): `_Tuple` (`TupleAcc`, the accumulator recursion),
  `Tuple` and `Length`.
- `Decimal` (decimal.dfy): the decimal numerals `"0"`, `"1"`, ... that the
  checker uses as the keys of tuple positions.
- `Objects` (objects.dfy): `FromEntries`, `Entries` and `KeyUnion`.
  - `FromEntries` maps each key to the set of all values paired with it. The
    type-level result keeps the union of all values given for a key
    (`{ a: 1 | 2 }`), so duplicate keys merge rather than overwrite.
  - `Entries` of an object is ghost. Its order is the checker's, given by `U2T`.
  - A property key is a string `Name` or an integer `Index`. An integer key
    below 10^21 in magnitude and within the exactly representable range of
    doubles names the property spelled by its plain decimal numeral
    (`PropertyName`), so `0` and `"0"` are one property. `PropertyFromEntries` files entries under property
    names and so merges them; `FromEntries` itself is generic in the key.

Two points about what the code promises:

- For duplicate keys, a runtime `Object.fromEntries` keeps only the last value.
  The type-level code keeps every value, and so does `FromEntries` here.
- The doc comments call `Split` the inverse of `Join`.
  - `Join(Split(s, sep), sep) == s` holds for every string and every separator
    (`JoinSplit`).
  - The other direction needs more than "no element contains the separator".
    `SplitJoinOverlap` shows this: with separator `"aa"`, the tuple `["a", ""]`
    joins to `"aaa"`, which splits into `["", "a"]`.
  - `SplitJoin` proves the law for the `Joinable` tuples: non-empty, no
    occurrence of the separator may start inside an element before the last
    (`Separable`), and the last element does not contain the separator.
  - `SplitJoinNecessary` proves the converse, so `SplitJoinExactly` states
    that `Split` undoes `Join` on exactly the joinable tuples.
  - `SeparableSingle` shows that for a one-character separator such as `","`
    this condition is just "the separator does not occur in the element".

## Model

| member | source | states |
|---|---|---|
| `Strings.LeftmostMatch` | src/index.d.ts:112 | with a non-empty separator there is a match exactly when the separator occurs; the string is head + separator + tail, and no occurrence starts inside the head (shortest head, leftmost occurrence) |
| `Strings.MatchSep` | src/index.d.ts:112 | the matching step of `Split`: the string is head + separator + tail with a shorter tail; with an empty separator the head is exactly one character and only the empty string fails to match; with a non-empty one the match is leftmost |
| `Strings.Split` | src/index.d.ts:105-114 | with a non-empty separator there is at least one piece and no piece contains the separator |
| `Strings.Join` | src/index.d.ts:89-98 | no contract of its own; its equations are `Strings.JoinCases`, and its laws with `Split` are `Strings.JoinSplit` and `Strings.SplitJoinExactly` |
| `Strings.JoinCases` | src/index.d.ts:89-98 | `Join([]) == ""`, `Join([x]) == x`, `Join([x] + r) == x + sep + Join(r)` for non-empty `r` |
| `Strings.JoinSplit` | src/index.d.ts:85-114 | joining the pieces of a split gives back the string, for every separator including `""` |
| `Strings.SplitEmpty` | src/index.d.ts:108-111 | `Split("", sep) == [""]` for a non-empty separator |
| `Strings.SplitEmptyBoth` | src/index.d.ts:108-110 | `Split("", "") == []` |
| `Strings.SplitChars` | src/index.d.ts:108-113 | with the empty separator the result is one one-character piece per character, in order |
| `Strings.SplitCount` | src/index.d.ts:108-114 | with a non-empty separator the number of pieces is the number of non-overlapping occurrences plus one |
| `Strings.SplitJoin` | src/index.d.ts:85-114 | `Split(Join(xs, sep), sep) == xs` for a non-empty `sep` when `xs` is non-empty, no occurrence of `sep` can start inside an element before the last, and the last element does not contain `sep` |
| `Strings.SplitJoinNecessary` | src/index.d.ts:85-114 | a tuple that `Split` gives back after `Join` with a non-empty separator satisfies exactly that condition |
| `Strings.SplitJoinExactly` | src/index.d.ts:85-114 | with a non-empty separator, `Split(Join(xs, sep), sep) == xs` if and only if `xs` is joinable |
| `Strings.SeparableSingle` | src/index.d.ts:100-104 | for a one-character separator, the condition of `SplitJoin` is exactly "the element does not contain the separator" |
| `Strings.SplitJoinOverlap` | src/index.d.ts:100-104 | "no element contains the separator" is not enough for the inverse law: `["a", ""]` with `"aa"` comes back as `["", "a"]` |
| `Strings.ExampleSplitCommas` | src/index.test.d.ts:91 | `Split("1,2,3")` with the default separator is `["1", "2", "3"]` |
| `Strings.ExampleSplitChars` | src/index.test.d.ts:92 | `Split("123", "") == ["1", "2", "3"]` |
| `Strings.ExampleSplitEmptyPieces` | src/index.test.d.ts:96 | `Split(",,,")` is four empty pieces |
| `Strings.ExampleJoin` | src/index.test.d.ts:80-81 | `Join(["1", "2", "3"])` with the default separator is `"123"`, with `","` it is `"1,2,3"` |
| `Collections.T2U` | src/index.d.ts:63 | every element of the tuple is in the union and every member of the union occurs in the tuple |
| `Collections.T2USize` | src/index.d.ts:63 | the union has at most as many members as the tuple has positions, exactly as many if and only if the tuple has no duplicates |
| `Collections.T2UEmpty` | src/index.test.d.ts:58 | only the empty tuple has the empty union |
| `Collections.U2T` | src/index.d.ts:30-51 | the result is duplicate-free and its element set is the union (its order is left open) |
| `Collections.U2TInverse` | src/index.d.ts:31-32 | `T2U(U2T(u)) == u`, and the tuple has one position per member |
| `Permutations.U2P` | src/index.d.ts:81 | no contract of its own; its members are characterised by `Permutations.U2POrderings` and counted by `Permutations.U2PSize` |
| `Permutations.U2PFrom` | src/index.d.ts:65-69 | no contract of its own; its size is `Permutations.U2PFromSize`, and through `U2P` its members are the orderings of `Permutations.U2POrderings` |
| `Permutations.U2PSound` | src/index.d.ts:65-81 | every member of `U2P(u)` lists each member of `u` exactly once |
| `Permutations.U2PComplete` | src/index.d.ts:65-81 | every duplicate-free sequence with element set `u` is a member of `U2P(u)` |
| `Permutations.U2POrderings` | src/index.d.ts:65-81 | members of `U2P(u)` are exactly the orderings of `u`, each of length `|u|` |
| `Permutations.U2PEmpty` | src/index.d.ts:65-66 | `U2P({}) == {[]}` |
| `Permutations.U2PFromSize` | src/index.d.ts:65-69 | `_U2P(us, r)` for non-empty `us` within `r` has `|us| * (|r| - 1)!` members |
| `Permutations.U2PSize` | src/index.d.ts:65-81 | `U2P(u)` has `|u|!` members |
| `Permutations.U2PPair` | src/index.d.ts:74-77 | a two-member union has exactly its two orderings |
| `Tuples.TupleAcc` | src/index.d.ts:187-191 | from an accumulator no longer than `n`, the result has length `n`, starts with the accumulator, and is `t` everywhere after it |
| `Tuples.Tuple` | src/index.d.ts:205-207 | `Tuple(n, t)` has length exactly `n` and every element is `t` |
| `Tuples.Length` | src/index.d.ts:218 | no contract of its own; it undoes `Tuple` (`Tuples.LengthOfTuple`) and `Tuple` undoes it (`Tuples.TupleOfLength`) |
| `Tuples.LengthOfTuple` | src/index.d.ts:192-218 | `Length(Tuple(n, t)) == n` |
| `Tuples.TupleOfLength` | src/index.d.ts:209-218 | a tuple filled with `t` is rebuilt by `Tuple(Length(xs), t)` |
| `Decimal.FromNat` | src/index.d.ts:162 | the key of a position is a non-empty string of digits without a leading zero |
| `Decimal.ToNatFromNat` | src/index.d.ts:162 | reading a position key back as a number gives the position |
| `Decimal.FromNatInjective` | src/index.d.ts:162 | different positions have different keys |
| `Objects.FromEntries` | src/index.d.ts:134-142 | every entry's value is filed under its key; every key present has a non-empty set of values, each paired with that key in the entries |
| `Objects.FromEntriesKeys` | src/index.d.ts:134-137 | the domain is exactly the set of keys occurring in the entries |
| `Objects.FromEntriesValues` | src/index.d.ts:134-141 | the value at `k` is the set of all values paired with `k`: duplicates merge rather than overwrite |
| `Objects.FromEntriesEmpty` | src/index.test.d.ts:111 | `FromEntries([])` is the empty map |
| `Objects.FromEntriesOrder` | src/index.d.ts:134-142 | entry lists with the same set of pairs give the same map: order and repetition do not matter |
| `Objects.FromEntriesSnoc` | src/index.test.d.ts:105-108 | one more entry adds its value to the set under its key and leaves the other keys unchanged |
| `Objects.PropertyFromEntries` | src/index.d.ts:134-142 | no contract of its own; its values are `Objects.PropertyFromEntriesValues` and its keys `Objects.PropertyFromEntriesKeys`, and `Objects.ExampleIndexAndName` shows a number key and its numeral merging |
| `Objects.PropertyNameIndex` | src/index.d.ts:134-137 | two number keys name the same property if and only if they are the same number |
| `Objects.PropertyFromEntriesValues` | src/index.d.ts:134-141 | the property named `n` holds every value whose key names `n`, a number key and its numeral alike |
| `Objects.PropertyFromEntriesKeys` | src/index.d.ts:134-137 | the properties of the result are the names of the keys occurring in the entries |
| `Objects.ExampleIndexAndName` | src/index.d.ts:134-142 | `FromEntries` of `[[0, "a"], ["0", "b"]]` has the one property `"0"` holding `"a" \| "b"` |
| `Objects.ExampleMergedKey` | src/index.test.d.ts:105 | `FromEntries([("a", 1), ("a", 2)])` maps `"a"` to `{1, 2}` |
| `Objects.TupleEntries` | src/index.d.ts:161-162 | one entry per position, in order, with the element as value and exactly the position's shortest decimal numeral (`"0"`, `"1"`, ...) as key; no two entries share a key |
| `Objects.ObjectEntries` | src/index.d.ts:161-163 | a duplicate-free list of exactly the object's key-value pairs; no two entries share a key |
| `Objects.Entries` | src/index.d.ts:161-163 | no contract of its own: it is `Objects.TupleEntries` on a tuple and `Objects.ObjectEntries` on an object; `Objects.KeyUnionOfEntries` and the two `FromEntriesOf...Entries` lemmas relate it to `KeyUnion` and `FromEntries` |
| `Objects.KeyUnion` | src/index.d.ts:178-182 | a tuple of length `n` has exactly the keys `"0"` to `"n-1"`, `n` of them; an object's key union is its domain |
| `Objects.PositionKeysSize` | src/index.d.ts:178-180 | the first `n` positions have `n` distinct keys |
| `Objects.KeyUnionEmpty` | src/index.test.d.ts:146-148 | the empty tuple and the empty object have no keys |
| `Objects.KeyUnionOfEntries` | src/index.d.ts:184-185 | the key union equals the set of keys of the entries list, for tuples and objects |
| `Objects.EntriesEmptyObject` | src/index.test.d.ts:136 | the entries of the empty object are the empty list |
| `Objects.FromEntriesOfObjectEntries` | src/index.d.ts:116-118 | `FromEntries(Entries(m))` is `m` with each value as a one-member set |
| `Objects.FromEntriesOfTupleEntries` | src/index.d.ts:144-153 | `FromEntries(Entries(xs))` has the tuple's key union as domain and `{xs[i]}` under the key of position `i` |

## Left out

- `U2I` and `OneOf` (src/index.d.ts:20-28, src/utils.d.ts:8-12): they rest on contravariant inference and on the checker's internal order of union members, and compute nothing on values. `OneOf`'s choice appears only as the unspecified `:|` in `U2T`.
- `IsNumLiteral` (src/utils.d.ts:14-18): in the model every tuple has a fixed length, so `KeyUnion` of a tuple always takes the literal-length branch.
- Non-literal types (`string`, `number`, `` `${number}` ``, open arrays such as `string[]`, rest tuples, index signatures such as `{ [x: string]: "a" }`): these are behaviour of the type lattice, not computation on values. This covers `Tuple<number>`, `Length<string[]>`, the `number` branch of `KeyUnion`, and the malformed `FromEntries` results of src/index.d.ts:130-132.
- Distribution over union inputs (`Join<[1, 2] | [3, 4]>`, `Entries<{ a: 1 } | { b: 2 }>`, `Tuple<1 | 2>`, an entry whose key is a union such as `["b" | "c", 3]`): this only lifts each function pointwise over a set of inputs.
- Template stringification of numbers, booleans, bigints, `null` and `undefined` (`TemplateVal`, src/index.d.ts:83): separators and joined elements are strings here, so `Split<"123", 2>` is not modelled. Number formatting is the compiler's own behaviour.
- Characters: a TypeScript string is a sequence of UTF-16 code units, so a one-character head under the empty separator is one code unit. Here a character is a Dafny `char`, so surrogate pairs are not modelled.
- `Tuple` with a negative or fractional literal length, and the recursion limit of about 1000 (src/index.d.ts:193-194): the length is a `nat`, and the limit is an artefact of the compiler. `TupleAcc` requires its accumulator to be no longer than `n`, as in its only caller, where the source would recurse until that limit.
- Default type arguments: the `unknown` default item of `Tuple` has no value-level meaning. The default separators are the constants `JOIN_DEFAULT_SEP` (`""`) and `SPLIT_DEFAULT_SEP` (`","`).
- Symbol property keys and non-integer number keys: `PropertyKey` has string and integer keys only.
- `Objects.PropertyName`: number keys are modelled as mathematical integers written in plain decimal. TypeScript number keys are doubles named by JavaScript's number-to-string conversion. So keys of magnitude 10^21 or more (named in exponential form, such as `"1e+21"`) and keys beyond 2^53 (where distinct literals can denote one double) are not modelled.
- `Objects.ObjectValue`, `Objects.Entries` and `Objects.KeyUnion`: a map may hold both `Index(n)` and `Name` of the numeral of `n`, which no TypeScript object type can, and for such a map `Entries` and `KeyUnion` list both spellings. `Objects.FromEntries` on `PropertyKey` entries keeps the two spellings apart too; `Objects.PropertyFromEntries` is the one that merges them by property name. The model keeps the keys as written because `Entries` of `{ 0: "a" }` gives the number key `0`.
- `XPath` (exercised by src/index.test.d.ts:163-192): its definition is not among the files of this model.
- src/index.test.d.ts itself: its compile-time assertions are the source of several lemma statements, not code to model.
