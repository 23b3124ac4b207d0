# INI value object: folding, unfolding and serialization

This project models the value object of the ding-libs INI library
(`ini/ini_valueobj.c`). The object holds one configuration value in two forms:

- **unfolded**: the whole value in one buffer;
- **folded**: the physical-line fragments written to the file, one per line.

It also records the value's origin, its line number, the length of its key,
the folding boundary, and an optional comment that it owns.

The model has five modules:

- `Bytes` (`bytes.dfy`): bytes, the blank characters (space and tab), and
  `Concat` of a list of fragments.
- `Folding` (`folding.dfy`): the folding engine. `value_fold` is the method
  `ValueFold`. Its outer `while (!done)` loop calls `FoldRound`, which holds
  the body of one iteration. The inner `for` scan is `FindFoldPlace`. Each
  method is proved against a pure function: `Scan` for the scan, and
  `FoldFrom` (from a loop state to the final fragments) for the loop.
  `save_portion` is `SavePortion` together with `Dress`. `Dress` adds the
  synthetic space on a continuation line that does not start with a blank.
- `FoldProperties` (`foldproperties.dfy`): the round trip, meaning that
  joining the fragments gives back the value. It also holds the edge cases
  and worked examples.
- `FoldShape` (`foldshape.dfy`):
  - every continuation line starts with a blank;
  - every fragment fits the room its line leaves, or is one word that no
    break could shorten.
- `Unfolding` (`unfolding.dfy`): `value_unfold` as a loop, proved equal to
  `Concat`, and `value_add_to_arrays`.
- `ValueObject` (`valueobject.dfy`): the object itself.
  - It is a `class ValueObj` with the C structure's fields.
  - Its mutators carry `modifies` clauses.
  - `Valid()` says that the two forms agree. Every constructor and mutator
    establishes or keeps it.
  - `Serialize` is proved equal to the function `Serialized`.
  - `SerializedLayout` shows how `Serialized` reads as lines of the file.

The line budget:

- Folding raises a boundary of 0 to 1.
- Line 0 then has `boundary - keylen - 3` bytes of room when `boundary > keylen + 3`, and none otherwise. The 3 is the length of `" = "`.
- Every later line has `boundary` bytes.

Fold results worth knowing:

- A breaking blank becomes the first byte of the next fragment.
- When line 0 has no room, the first fragment is empty, and a non-empty value starts on line 1 after a synthetic space. Joining the fragments then gives `" "` followed by the value (`FoldRoundTrip`).
- That synthetic space can make line 1 one byte longer than `boundary`. `FoldShape.Width` allows exactly that one byte.
- A word longer than its line is kept whole.
- In a last round whose rest is longer than the room (the scan breaks at the end of the value): when the scan finds no blank after the line start within the room, the rest of the value is saved whole and the loop saves one more, empty, fragment after it. When a blank did fit, the line is cut there and the rest of the value from that blank is the last fragment (`FoldFromLastRound`, `FoldLongWord`, `FoldExampleTrailingEmpty`, `FoldExampleLastWord`).

Two consequences of the code that are easy to miss:

- An empty value folds to two empty fragments (`FoldEmptyValue`). The first is saved when the scan breaks at position 0, the second by the end-of-value save.
- Line 1 may be one byte longer than the boundary after an empty line 0, as described above.

## Model

| member | source | states |
|---|---|---|
| Folding.EffectiveBoundary | ini/ini_valueobj.c:201 | the folding boundary is never 0: a zero boundary becomes 1, any other is kept |
| Folding.ScanFacts | ini/ini_valueobj.c:220-283 | the scan stops at the end, at a blank, or at byte 0 when line 0 has no room; a break is past the limit or at 0; the remembered fold place is a blank within the limit |
| Folding.ScanLastBlank | ini/ini_valueobj.c:220-283 | the fold place a break returns is the last blank the scan passed |
| Folding.DressShape | ini/ini_valueobj.c:121-145 | the first portion is stored unchanged; a later one gains a space exactly when it is non-empty and does not start with a blank, so it is empty or starts with a blank |
| Folding.CutFacts | ini/ini_valueobj.c:240-276 | a broken line is cut between its start and the break, and a continuation line that breaks before the end always advances |
| Folding.LeadingBlankStalls | ini/ini_valueobj.c:225-276 | a value starting with a blank breaks at 0 with an empty portion in every round, so the loop never advances |
| Folding.FindFoldPlace | ini/ini_valueobj.c:220-283 | the `for` scan returns the break, or that it ran to the end within the limit, as `Scan` defines them; `done` exactly when the scan reached the end |
| Folding.FoldRound | ini/ini_valueobj.c:203-297 | one iteration of the outer loop: when done, the fragments are the fold's result; otherwise the new state leads to the same result, with one more fragment, and the line start has moved forward (on every round but a first one with no room) |
| Folding.ValueFold | ini/ini_valueobj.c:171-301 | the returned fragments equal `Fold` of the value, key length and boundary; the fragments the object held before play no part, since the arrays are reset first (:193-194) |
| FoldProperties.FoldFromConcat | ini/ini_valueobj.c:203-297 | from any loop state, the fragments still to come spell the rest of the value, after a synthetic space where that rest starts a continuation line |
| FoldProperties.FoldRoundTrip | ini/ini_valueobj.c:171-301 | joining the fragments gives the value back, or, for a non-empty value when line 0 has no room, a space followed by the value |
| FoldProperties.FoldEmptyValue | ini/ini_valueobj.c:222-297 | an empty value folds to two empty fragments |
| FoldProperties.FoldZeroBoundary | ini/ini_valueobj.c:201 | folding with boundary 0 is folding with boundary 1 |
| FoldProperties.ScanToEnd | ini/ini_valueobj.c:220-283 | a scan over a value that fits its limit reaches the end without breaking |
| FoldProperties.FoldShortValue | ini/ini_valueobj.c:203-297 | a non-empty value that fits line 0 is one fragment equal to the value |
| FoldProperties.FoldLongWord | ini/ini_valueobj.c:240-297 | a blank-free value longer than line 0's room is kept whole on line 0, followed by one empty fragment |
| FoldProperties.FoldFromLastRound | ini/ini_valueobj.c:240-297 | a last round that breaks at the end either saves the rest whole (overrunning the room unless empty) followed by an empty fragment, or cuts at the last blank within the room and ends with the rest of the value from that blank |
| FoldProperties.FoldExampleTrailingEmpty | ini/ini_valueobj.c:203-297 | no key, boundary 4: "ab cdefgh" folds to "ab", " cdefgh" and an empty fragment |
| FoldProperties.FoldExampleLastWord | ini/ini_valueobj.c:203-297 | no key, boundary 4: "a b cdefghij" folds to "a", " b" and " cdefghij", with no empty fragment |
| FoldProperties.FoldExampleTwoLines | ini/ini_valueobj.c:203-297 | key length 3, boundary 10: "aaaa bbbb cccc" folds to "aaaa" and " bbbb cccc" |
| FoldProperties.FoldExampleNoRoom | ini/ini_valueobj.c:203-297 | key length 8, boundary 10: "ab" folds to an empty line 0 and " ab" |
| FoldShape.CutFits | ini/ini_valueobj.c:240-263 | the portion saved at a break fits its line's budget, or is one word the break could not shorten |
| FoldShape.TailWord | ini/ini_valueobj.c:286-297 | what is saved after the last break at the end of the value is one word |
| FoldShape.NextReach | ini/ini_valueobj.c:269-276 | after a break, the next line starts at a blank (or at byte 0 after an empty line 0), and no blank lies between it and the resume place |
| FoldShape.SavePortionKeeps | ini/ini_valueobj.c:121-145 | saving a portion that fits its budget keeps every fragment within its room and every continuation line starting with a blank |
| FoldShape.FoldFromShape | ini/ini_valueobj.c:203-297 | from any state reached by the loop, the finished fragment list is well folded |
| FoldShape.FoldWellFolded | ini/ini_valueobj.c:171-301 | every continuation fragment is empty or starts with a blank, and every fragment fits its line's room (line 0: boundary − keylen − 3, later lines: boundary, one more on line 1 after an empty line 0) or contains no blank after its first byte |
| Unfolding.ValueUnfold | ini/ini_valueobj.c:57-107 | the buffer built by appending the fragments in order is their concatenation, and it is as long as all of them together |
| Unfolding.AddToArrays | ini/ini_valueobj.c:423-448 | the folded form gains exactly one fragment at the end, the first `len` bytes of `strvalue`, and the earlier fragments are unchanged |
| Unfolding.UnfoldAfterAdd | ini/ini_valueobj.c:423-448 | unfolding after an append yields the old value followed by the appended bytes |
| ValueObject.FoldAgrees | ini/ini_valueobj.c:171-301 | a freshly folded value agrees with its fragments, which is the object invariant `Valid` |
| ValueObject.SerializedLayout | ini/ini_valueobj.c:787-893 | the output is the comment lines, then key, " = " and the first fragment on one line, then one line per further fragment, each ended by the terminator |
| ValueObject.SerializedExample | ini/ini_valueobj.c:787-893 | key "foo", value "aaaa bbbb cccc", boundary 10, no comment: "foo = aaaa", terminator, " bbbb cccc", terminator |
| ValueObject.CreateFromRefArray | ini/ini_valueobj.c:305-362 | missing arrays give EINVAL and no object; otherwise a new object stores the fragments, line, origin, key length, boundary and comment as given, with the unfolded value their concatenation |
| ValueObject.CreateNew | ini/ini_valueobj.c:486-570 | a missing string gives EINVAL and no object; otherwise a new object holds the first `length` bytes as its value, with line 0, and fragments that are the fold of that value |
| ValueObject.ValueObj.GetConcatenated | ini/ini_valueobj.c:573-587 | the unfolded value, which the fragments spell, or spell after a leading space |
| ValueObject.ValueObj.GetOrigin | ini/ini_valueobj.c:590-603 | the stored origin |
| ValueObject.ValueObj.GetLine | ini/ini_valueobj.c:606-619 | the stored line number |
| ValueObject.ValueObj.SetKeyLen | ini/ini_valueobj.c:622-649 | only the key length and the fragments change; the fragments become a fresh fold of the current value, and the forms agree |
| ValueObject.ValueObj.Update | ini/ini_valueobj.c:653-711 | a missing value gives EINVAL and changes nothing; otherwise the value, origin and boundary are replaced (the boundary as given, 0 included), the key length, line and comment are kept, and the fragments are a fresh fold |
| ValueObject.ValueObj.ExtractComment | ini/ini_valueobj.c:714-731 | returns the comment the object had and leaves it with none, changing nothing else |
| ValueObject.ValueObj.PutComment | ini/ini_valueobj.c:734-755 | a missing comment gives EINVAL and changes nothing; otherwise the comment is installed, and the old one is destroyed exactly when it exists and is a different comment |
| ValueObject.ValueObj.Serialize | ini/ini_valueobj.c:758-901 | the output is `Serialized`: each comment line with a terminator, exactly `keylen` bytes of the key, " = ", and each fragment with a terminator |

## Left out

- Allocation and cleanup: `malloc`/`free`, every ENOMEM path, `value_create_arrays`, `value_lines_cleanup_cb`, `value_destroy_arrays` and `value_destroy`. Memory is not modelled, so these have nothing to state.
- Errors from the buffer, array and comment collaborators (`simplebuffer_*`, `ref_array_*`, `ini_comment_*`) are not modelled. Their internals are not part of this model, only their effect on values is.
  - A simple buffer is a `seq<byte>`.
  - A pair of `raw_lines`/`raw_lengths` arrays is one `seq<Fragment>`, so the two arrays cannot get out of step.
  - A comment is a value with a handle number.
- The NULL checks on the object and on out pointers are not modelled: Dafny references are never null. The getters therefore return only their value, not the status code that is always EOK.
- `value_add_to_arrays` stores the caller's `strvalue` pointer, not a copy. The model appends the bytes as a value and does not model aliasing between the array and the caller's buffer.
- `value_create_from_refarray` keeps the caller's arrays by reference. The model stores their value and does not model aliasing with the caller.
- uint32 arithmetic: origin, line, key length and boundary are `nat`. The wrap-around of `key_len + INI_FOLDING_OVERHEAD` and `best_place += start_place` is not modelled.
- A value that is non-empty and starts with a space or tab: `value_fold` never terminates on it (`Folding.LeadingBlankStalls`). `ValueFold`, `SetKeyLen`, `Update` and `CreateNew` therefore require `Foldable`.
- The C code reads `keylen` bytes of `key` in `value_serialize`, `length` bytes of the string in `value_create_new` and `value_update`, and later `len` bytes of the buffer stored by `value_add_to_arrays`, trusting the caller's pointer. The model states this as the requirements `keyLen <= |key|`, `length <= |value|` and `len <= |strvalue|`.
- The terminator written by `simplebuffer_add_cr` is the parameter `eol` of `Serialize`, because its bytes belong to the buffer collaborator.
- `Serialize` appends each line and its terminator in one step. The C code uses two calls, which is the same bytes.
- The `if (vo->raw_lines)` test in `value_serialize` always holds in the model, because every object has a folded form.
- The `error` check after `ref_array_get` in `value_serialize` cannot fire, so it is not modelled.
- The memory leak when `value_unfold` fails inside `value_create_from_refarray` is not modelled.
- The object left unusable after a failed refold in `value_set_keylen` or `value_update` is not modelled, because the fold can fail only on allocation.
- TRACE_* macros are debug output and are not modelled.
- In `value_fold`, the body of the outer `while` loop is the separate method `FoldRound`, and the `for` scan is `FindFoldPlace`. The variables, branches and order of updates are those of `value_fold`.
- ValueObject.ValueObj.PutComment: whether two comments are the same handle is the equality of their handle numbers. Destroying the old comment is modelled as returning it in `destroyed`.
