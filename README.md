# apple-virtualization: the Foundation dictionary cursor and the NSError renderer

This project is a Dafny model of the two parts of the `apple-virtualization`
crate's Foundation bridge that carry logic of their own:

- **`NSDictionary`** (`src/foundation/dictionary.rs`). It wraps a native
  dictionary together with a key enumerator, which is captured when the
  wrapper is built.
  - Iterating the wrapper asks the enumerator for the next key and looks up its value.
  - Its `Debug` text walks a second wrapper of the same dictionary and classifies each value by its runtime class.
- **`NSError`** (`src/foundation/error.rs`). It has three read-only accessors (`code`, `localized_description`, `user_info`).
  - `Display` writes a fixed header, then either an empty-info marker or one padded line per user-info entry. It handles two localized-failure keys specially and renders `NSUnderlyingError` recursively.
  - `Debug` uses `debug_struct` with three fields.

What the Objective-C runtime answers is plain data in module `Native`:

- an error's code and description;
- the order a key enumerator yields;
- `objectForKey:` and `count`;
- an object's address and runtime class name.

The predicates `RuntimeError`, `WellFormedHandle` and `Faithful` state what the runtime guarantees about that data. `WellFormedError`, which Display requires, adds one assumption the runtime does not guarantee: each special user-info key holds a value of its documented type. The assumption reaches a nested error only under `NSUnderlyingError`, the one key whose error Display renders. Under any other key a nested error needs only the runtime's guarantees, because Display shows just its address. Debug requires only `RuntimeError`. An error is a finite datatype, so a chain of underlying errors ends, and the recursive renderers terminate structurally.

Modules:

- `Fmt`: the pieces of Rust's `std::fmt` that the bridge uses, each with a read-back property:
  - `{}` of an unsigned integer;
  - `{:?}` of a raw pointer;
  - the `{:<24}` width;
  - `{:?}` of a `String`.
- `Native`: the runtime's data and its guarantees. It also defines the entries a full iteration yields, and the user-info dictionary of an error.
- `Error`: the accessors, and the Display and Debug texts as functions. This module holds the properties of those texts: layout, where each entry stands, and which texts read back.
- `Dictionary`: the wrapper as a class.
  - Its constant fields are the enumerator's key order, `objectForKey:` and `count`.
  - A mutable cursor `pos` is the enumerator's progress.
  - `Next` moves the cursor. `Debug` is a loop over a fresh wrapper.
- `ErrorFmt`: `user_info`, and `Display` and `Debug` as the step-by-step writers the source has. Each is proved to produce the text that `Error` specifies.

## Model

| member | source | states |
|---|---|---|
| Dictionary.NSDictionary.constructor | src/foundation/dictionary.rs:13-23 | `new` wraps an empty collection whose enumerator starts at the first key, so the wrapper is empty and there is nothing to iterate |
| Dictionary.NSDictionary.FromHandle | src/foundation/dictionary.rs:72-85 | wrapping a handle takes a new enumerator at position 0, so what remains to iterate is every entry of the handle, in enumerator order, one per key, whatever other wrappers of the same handle have consumed |
| Dictionary.NSDictionary.Len | src/foundation/dictionary.rs:33-38 | `len` is the native count; on a faithful collection it is the number of pairs a full iteration yields; it reads only constant fields, so no call of `Next` changes it |
| Dictionary.NSDictionary.IsEmpty | src/foundation/dictionary.rs:29-31 | `is_empty` holds exactly when `len` is 0, and on a faithful collection exactly when a full iteration yields no pair |
| Dictionary.NSDictionary.NextObject | src/foundation/dictionary.rs:91-93 | the enumerator hands out the key at the cursor and moves by one; at the end it answers null and stays there |
| Dictionary.NSDictionary.Next | src/foundation/dictionary.rs:90-107 | with keys left, yields the next remaining pair `(key, m[key])` and moves the cursor by exactly one; otherwise yields None, and it yields None exactly when the enumerator was already exhausted, after which every later call yields None; the collection is never changed |
| Dictionary.NSDictionary.Debug | src/foundation/dictionary.rs:47-70 | the text is the `debug_map` of every entry of the wrapped collection in enumerator order, whatever this wrapper has consumed; the method modifies nothing, so this wrapper's cursor stays where it was |
| Native.FaithfulEntriesCount | src/foundation/dictionary.rs:33-38 | on a faithful dictionary (its enumerator visits each of its keys exactly once, and its native `count` is its number of keys) a full iteration yields exactly `count` pairs, and none exactly when `count` is 0 |
| Native.UserInfoEntries | src/foundation/error.rs:28-31 | the user-info dictionary of an error is faithful, its count is the number of entries, and a full iteration over it yields the error's entries in order |
| Error.Code | src/foundation/error.rs:14-16 | `code()` casts the signed 64-bit code to `usize`: the result is below 2^64, congruent to the code modulo 2^64, and equal to it when the code is not negative |
| Error.DescriptionLineAt | src/foundation/error.rs:22-26 | `localized_description()` is what the rendering shows after the description label, verbatim and followed by a line break |
| Error.HeaderLayout | src/foundation/error.rs:42-44 | every rendering begins with `NSError:\n`, the code line (code in decimal) and the description line |
| Error.UserInfoTail | src/foundation/error.rs:46-51 | when the user-info count is 0 the rendering is the header followed by exactly `  userinfo   : { }`; otherwise it is the header, `  userinfo   : {`, the entry lines and `\n  }` |
| Error.EmptyMarkerIff | src/foundation/error.rs:47-49 | the rendering ends in `{ }` if and only if the error has no user info |
| Error.LineLayout | src/foundation/error.rs:56-62 | an entry line is `\n    `, the key left-aligned and padded with spaces to at least 24 characters (a longer key is kept whole), `: `, and the value text |
| Error.EntryLineAt | src/foundation/error.rs:52-64 | the line of entry `i` stands in the rendering right after the header, the opening line and the lines of entries `0..i`: one line per entry, in iteration order |
| Error.EntryValueAt | src/foundation/error.rs:53-63 | the text after the key of entry `i` occurs in the rendering and is the string for `NSLocalizedFailure` and `NSLocalizedFailureReason`, the full rendering of the nested error for `NSUnderlyingError`, and the value's address for any other key |
| Error.DebugValueClassified | src/foundation/dictionary.rs:52-65 | the classification never fails: a `__NSCFString` object is a string and shows its text, an `NSError` object is an error meeting the runtime's guarantees and shows its Debug text, any other object shows its address and class name |
| Error.DebugValueOther | src/foundation/dictionary.rs:62-64 | a value of any class other than the string and error classes renders as `0x`, lower-case hexadecimal digits without a leading zero that read back as its address, then ` (<class>)` |
| Native.WellFormedIsRuntime | src/foundation/error.rs:54-61 | Display's precondition (the runtime's guarantees plus documented types for the special keys) implies Debug's, so every error Display accepts Debug accepts too |
| Error.MistypedSpecialKey | src/foundation/error.rs:54-57 | the converse fails: an error whose `NSLocalizedFailure` holds a number meets the runtime's guarantees, which is all Debug needs, but not the typed-key assumption of Display's unchecked string conversion |
| Error.NumberShownByAddress | src/foundation/dictionary.rs:62-64 | Debug renders that number as its address and class, `0x10 (__NSCFNumber)` |
| Error.NestedErrorShownByAddress | src/foundation/error.rs:52-63 | Display accepts an error that holds, under an ordinary key, a nested error whose `NSLocalizedFailure` is a number, and renders that entry as one line showing only the nested object's address, `0x20`, without reading inside it |
| Error.DebugErrorLayout | src/foundation/error.rs:69-77 | the Debug text of an error opens with `NSError { code: <decimal>, description: <quoted description>, userinfo: {` and ends with `} }`; the map is empty exactly when the user info is |
| Error.MapEntryRecoversText | src/foundation/dictionary.rs:66 | a `debug_map` entry is the key, `: ` and the quoted value text, and the text between the quotes unescapes to the value text |
| ErrorFmt.UserInfo | src/foundation/error.rs:28-31 | `user_info()` returns a freshly allocated wrapper at position 0, over the error's own user info, whose `len` is the number of entries |
| ErrorFmt.Display | src/foundation/error.rs:40-67 | the header writes, the `is_empty` test and the loop over the user-info iterator together produce exactly `Render(e)`, including the recursive rendering of an underlying error |
| ErrorFmt.DebugText | src/foundation/error.rs:69-77 | `debug_struct` with code, description and the user-info dictionary's Debug text produces exactly `DebugError(e)` |
| Fmt.FromBaseToBase | src/foundation/error.rs:43 | the digits written for a number read back as that number, in any base from 2 to 16, as for the decimal code |
| Fmt.DecimalInjective | src/foundation/error.rs:43 | two codes with the same decimal text are the same code |
| Fmt.PointerText | src/foundation/error.rs:62 | `{:?}` of a pointer is `0x` followed by lower-case hexadecimal digits, with no leading zero unless the address is 0, that read back as the address |
| Fmt.PadRight | src/foundation/error.rs:56 | `{:<24}` keeps the whole text, then fills with spaces up to the width; it never truncates |
| Fmt.QuotedRoundTrip | src/foundation/error.rs:73 | `{:?}` of a `String` is enclosed in double quotes, and what is inside them unescapes to the original, whatever quotes, backslashes or control characters it holds |

## Left out

- `src/foundation/string.rs`, `url.rs`, `dispatch.rs`, `src/bootloader.rs`, `src/vm.rs` and `src/lib.rs` are not part of this model. They are single foreign calls, builders over foreign setters, or concurrency.
- `into_inner`, `Default` and `NSError::new` are left out. They concern ownership and allocation without initialisation, and have no counterpart on values.
- Reference counting and the lifetime of native objects are left out: native objects are immutable values here.
- Native answers are data, not behaviour:
  - the code, the description, the key order, `objectForKey:`, `count`, and each object's address and class name;
  - the runtime's guarantees about them are the preconditions `RuntimeError`, `WellFormedHandle` and `Faithful`.
- The model trusts the runtime on two points, both stated by the predicate `Coherent`:
  - an object whose class is `__NSCFString` is a string;
  - an object whose class is `NSError` is an error.
- ErrorFmt.Display: the special user-info keys are taken to hold values of their documented types (`TypedForKey`, part of `WellFormedError`). This applies to the error being rendered and to each error reached through `NSUnderlyingError`, because those are the errors Display renders. The source converts those values without checking, and what happens to a value of another type is not modelled. A nested error under any other key is not held to this assumption. Debug, which never converts by key, does not need this assumption.
- Formatter write errors (the `?` after each `write_str`) are left out. Writing to the formatter is modelled as appending to a string that cannot fail.
- `NSString::as_str` panics on text that is not valid UTF-8. That is left out: strings are Dafny strings.
- Fmt.QuotedRoundTrip: `{:?}` of a `String` is modelled with the escapes for `\0`, tab, carriage return, line feed, backslash and double quote, plus `\u{..}` for the other ASCII control characters. Rust's escaping of non-ASCII characters that are not printable and of grapheme extenders is not modelled: those characters are written as they are.
- Fmt.PointerText: an address is an unbounded natural number, not a machine word.
- ErrorFmt.DebugText: only the flag-free `{:?}` form is modelled. Under `{:#?}` Rust's `debug_struct` writes an indented multi-line layout with trailing commas, and under `{:x?}` the code is written in hexadecimal; neither is modelled. The crate itself formats errors with `{:?}`.
- Dictionary.NSDictionary.Debug: only the flag-free `{:?}` form of `debug_map` is modelled, not the multi-line layout of `{:#?}`.
- Dictionary.NSDictionary.Debug: the key of a `debug_map` entry is written as NSString's `Debug` writes it, that is the raw text without quotes; the value is a `String` and is quoted.
