# DevIL format-callback registry, dispatcher and chain builder

A model of DevIL's `il_register.c`. It covers four parts:

- **Callback registry.** Two lists of (extension, handler) pairs, `LoadProcs` and `SaveProcs`. Calls can register an entry, remove one, or clear both lists.
- **Dispatcher.** `iRegisterLoad`/`iRegisterSave` take a file name's extension and call the handler of the first entry whose extension matches it, ignoring case.
- **Chain builder.** `ilRegisterMipNum`/`ilRegisterNumImages` discard the current image's mipmap chain or "next image" chain and build a new chain of `Num` nodes.
- **Setters.** `ilRegisterOrigin`, `ilRegisterFormat`, `ilRegisterType` and `ilSetDuration` validate a value and store it in the current image.

Files:

- `il_types.dfy` (module `IlTypes`): `ILuint` as `uint32`, `Option`, the DevIL enum values and the accepted-value sets of the setters.
- `ext_compare.dfy` (module `ExtCompare`): `SameExt`, the `!stricmp(a, b)` test (ASCII case-insensitive equality). It is used for every comparison. It is proved symmetric, reflexive and transitive.
- `il_register.dfy` (module `IlRegister`): the specification functions (`FirstMatch`, `Registered`, `Removed`, `Handler`), the list scans, the chain builder, and the classes `Image` and `Library`. `Library` holds the file's globals: `LoadProcs`, `SaveProcs`, `iCurImage` and the last error set by `ilSetError`. Its methods update those fields in place. The registration, removal and dispatch methods are proved against the specification functions; the setters, the chain rebuilds and the clear state their new fields directly.
- `register_props.dfy` (module `RegisterProps`): lemmas about the specification functions, and the head-skip finding below.

Modelling choices:

- A handler is an opaque id (`ProcId`). Calling it is the parameter `invoke: (ProcId, string) -> bool`.
- `iGetExtension` is the parameter `getExtension: string -> Option<string>`.
- Whether `ialloc` succeeds is an input. Registration takes a `bool`. The chain builder takes `alloc: nat -> bool`, where `alloc(k)` says whether the node at position k is allocated.
- Each linked list is a sequence of entries.
- A chain is represented by its node count.

Two behaviours are kept as the code has them:

- **Re-registration.** The `// already registered` comment at il_register.c:35 shows that re-registering an extension is meant to be a no-op, but the duplicate test skips the head (see "## Findings"). The library methods keep the code's behaviour.
- **Failed chain build.** When an allocation fails partway, the code leaves the partial chain in place, and so does the model.

## Model

| member | source | states |
|---|---|---|
| `ExtCompare.SameExt` | DevIL/src-IL/src/il_register.c:35 | `!stricmp(a, b)`: equal lengths and equal characters after ASCII lower-casing; used by every comparison (il_register.c:35, 78, 119, 152, 212, 235). Equal strings match, and strings of different lengths never do. |
| `ExtCompare.LengthsDiffer` | DevIL/src-IL/src/il_register.c:119 | Two extensions of different lengths never compare equal. |
| `ExtCompare.SameExtSymmetric` | DevIL/src-IL/src/il_register.c:35 | The duplicate test compares `(node, Ext)` and the removal scan compares `(Ext, node)`. Both orders give the same answer. |
| `ExtCompare.SameExtTransitive` | DevIL/src-IL/src/il_register.c:119 | Case-insensitive equality is transitive. This is what makes "one entry per extension" meaningful. |
| `ExtCompare.CaseVariantsMatch` | DevIL/src-IL/src/il_register.c:35 | Examples: the case variants "png"/"PNG" and "Png"/"pNG" are equal; the pairs "png"/"bmp" and "png"/"pn" are not. |
| `IlRegister.FirstMatch` | DevIL/src-IL/src/il_register.c:117-139 | The scan's result is the smallest index whose extension matches. No earlier entry matches. `None` means no entry matches at all. |
| `IlRegister.LaterMatch` | DevIL/src-IL/src/il_register.c:31-41 | The duplicate test as written: some entry at index 1 or later matches `Ext`; the head is never compared, so a list of at most one entry never reports a duplicate (also il_register.c:74-84). |
| `IlRegister.Registered` | DevIL/src-IL/src/il_register.c:30-65 | A successful registration leaves the list unchanged when a non-head entry matches. Otherwise it keeps every earlier entry in order and appends `(Ext, handler)` at the tail. |
| `IlRegister.Removed` | DevIL/src-IL/src/il_register.c:113-142 | Removal unlinks exactly the first matching entry and keeps the others in their original order. With no match, the list is unchanged. The result is a sub-multiset of the input. |
| `IlRegister.Handler` | DevIL/src-IL/src/il_register.c:202-222 | Dispatch picks no handler when there is no extension or no entry matches. Otherwise it picks the handler of the first matching entry. |
| `IlRegister.ScanAfterHead` | DevIL/src-IL/src/il_register.c:30-42 | The walk to the tail reports a duplicate exactly when some entry at index 1 or later matches `Ext`. The head is never compared. |
| `IlRegister.ScanFirst` | DevIL/src-IL/src/il_register.c:117-139 | The removal/dispatch walk returns the first matching position. When it finds nothing, no entry matches. |
| `IlRegister.Dispatch` | DevIL/src-IL/src/il_register.c:202-245 | No extension: returns false and invokes nothing. A match: invokes the first matching entry's handler and returns its result verbatim. No match: returns false. |
| `IlRegister.BuildChain` | DevIL/src-IL/src/il_register.c:297-311 | The count-down loop links `Num` nodes exactly when every allocation after the head succeeds. Otherwise it stops at the first failed allocation with a partial chain of at least 1 and fewer than `Num` nodes. |
| `IlRegister.Library.constructor` | DevIL/src-IL/src/il_register.c:22-23 | Both handler lists start empty. |
| `IlRegister.Library.RegisterLoad` | DevIL/src-IL/src/il_register.c:26-66 | Duplicate after the head: true, list unchanged. Otherwise, if allocation succeeds: true, one entry appended at the tail. If allocation fails: false, `IL_OUT_OF_MEMORY`, list unchanged. `SaveProcs` is never touched. |
| `IlRegister.Library.RegisterSave` | DevIL/src-IL/src/il_register.c:69-109 | The same outcomes on `SaveProcs`. `LoadProcs` is untouched. |
| `IlRegister.Library.RemoveLoad` | DevIL/src-IL/src/il_register.c:113-142 | Returns true exactly when some entry matches. The new list is `Removed(old list, Ext)`. |
| `IlRegister.Library.RemoveSave` | DevIL/src-IL/src/il_register.c:146-175 | The same on `SaveProcs`. |
| `IlRegister.Library.RemoveRegistered` | DevIL/src-IL/src/il_register.c:179-199 | Afterwards both lists are empty, from any starting state, including empty lists. |
| `IlRegister.Library.DispatchLoad` | DevIL/src-IL/src/il_register.c:202-222 | Dispatch over `LoadProcs`, with the three outcomes of `Dispatch`. |
| `IlRegister.Library.DispatchSave` | DevIL/src-IL/src/il_register.c:225-245 | Dispatch over `SaveProcs`, with the three outcomes of `Dispatch`. |
| `IlTypes.IsOrigin` | DevIL/src-IL/src/il_register.c:254-262 | The accepted origins are exactly `IL_ORIGIN_LOWER_LEFT` and `IL_ORIGIN_UPPER_LEFT`. |
| `IlTypes.IsFormat` | DevIL/src-IL/src/il_register.c:269-281 | The accepted formats are exactly `IL_COLOUR_INDEX`, `IL_RGB`, `IL_RGBA`, `IL_BGR`, `IL_BGRA` and `IL_LUMINANCE`. |
| `IlTypes.IsType` | DevIL/src-IL/src/il_register.c:346-360 | The accepted types are exactly `IL_BYTE`, `IL_UNSIGNED_BYTE`, `IL_SHORT`, `IL_UNSIGNED_SHORT`, `IL_INT`, `IL_UNSIGNED_INT`, `IL_FLOAT` and `IL_DOUBLE`. |
| `IlRegister.Library.RegisterOrigin` | DevIL/src-IL/src/il_register.c:252-264 | Stores the origin only for the lower-left and upper-left values. Any other value sets `IL_INVALID_ENUM` and leaves the field as it was. |
| `IlRegister.Library.RegisterFormat` | DevIL/src-IL/src/il_register.c:267-283 | Stores the format only for the six listed formats. Any other value sets `IL_INVALID_ENUM` and leaves the field as it was. |
| `IlRegister.Library.RegisterType` | DevIL/src-IL/src/il_register.c:344-363 | Stores the type only for the eight listed component types. Any other value sets `IL_INVALID_ENUM` and leaves the field as it was. |
| `IlRegister.Library.SetDuration` | DevIL/src-IL/src/il_register.c:386-396 | No current image: `IL_ILLEGAL_OPERATION` and false. Otherwise stores `Duration`, returns true and leaves the other fields alone. |
| `IlRegister.Library.RegisterMipNum` | DevIL/src-IL/src/il_register.c:286-312 | The old mipmap chain is always discarded. `Num == 0` leaves an empty chain and returns true. If every allocation succeeds, the chain has exactly `Num` nodes. Otherwise: false, `IL_OUT_OF_MEMORY`, and a partial chain shorter than `Num`. |
| `IlRegister.Library.RegisterNumImages` | DevIL/src-IL/src/il_register.c:315-341 | The same outcomes for the "next image" chain. |
| `RegisterProps.NoMatchNoLaterMatch` | DevIL/src-IL/src/il_register.c:30-42 | When the removal scan finds no match, the registration duplicate test does not fire either. |
| `RegisterProps.FirstMatchOfAppended` | DevIL/src-IL/src/il_register.c:50-55 | An entry appended at the tail of a list with no match becomes the first match. |
| `RegisterProps.RegisterTwiceOnNonEmpty` | DevIL/src-IL/src/il_register.c:30-65 | On a non-empty list, registering two case variants of one extension in a row changes nothing the second time. |
| `RegisterProps.RegisterThenRemove` | DevIL/src-IL/src/il_register.c:113-142 | Registering an unmatched extension and then removing it restores the original list. |
| `RegisterProps.RegisterThenDispatch` | DevIL/src-IL/src/il_register.c:202-222 | After registering an unmatched extension, a dispatch for any case variant of it selects the new handler. |
| `RegisterProps.DispatchRoutesByExtension` | DevIL/src-IL/src/il_register.c:210-219 | Handlers 1 and 2 are registered for "foo" and "bar". "FOO" selects handler 1, "Bar" selects handler 2, and "png" selects none. |
| `RegisterProps.HeadExtensionRegisteredTwice` | DevIL/src-IL/src/il_register.c:31-41 | Registering "png" and then "PNG" on an empty list leaves two entries for one extension. |
| `RegisterProps.RegisterUnique` | DevIL/src-IL/src/il_register.c:30-65 | The corrected registration compares every entry, the head included. It leaves the list unchanged on any match and otherwise appends at the tail. |
| `RegisterProps.RegisterUniqueKeepsDistinct` | DevIL/src-IL/src/il_register.c:35 | The corrected registration keeps the extensions pairwise distinct, ignoring case. |
| `RegisterProps.RegisterUniqueTwice` | DevIL/src-IL/src/il_register.c:35-40 | With the correction, registering case variants twice is idempotent on every list, including the empty one. |
| `RegisterProps.RegisteredAgreesOffHead` | DevIL/src-IL/src/il_register.c:31-41 | The as-written registration equals the corrected one whenever `Ext` does not match the head. |
| `RegisterProps.RemoveLeavesNoMatch` | DevIL/src-IL/src/il_register.c:113-142 | On a list with distinct extensions, no entry matches the removed extension afterwards. |
| `RegisterProps.RemoveKeepsDistinct` | DevIL/src-IL/src/il_register.c:113-142 | Removal keeps a list with distinct extensions distinct. |
| `RegisterProps.RemoveCounts` | DevIL/src-IL/src/il_register.c:113-142 | Removing an unregistered extension changes nothing. A successful removal takes out exactly one entry: the removed one plus the rest equals the original multiset. |
| `RegisterProps.ClearedListDispatchesNothing` | DevIL/src-IL/src/il_register.c:179-222 | An empty list dispatches nothing; with `Library.RemoveRegistered` (both lists empty) and `Library.DispatchLoad`/`DispatchSave`, every dispatch after a clear returns false. |

## Findings

| source | as written | input that shows it | evidently intended | confidence | as-written member | corrected member |
|---|---|---|---|---|---|---|
| DevIL/src-IL/src/il_register.c:31-41 (and 74-84) | The duplicate scan does `TempNode = TempNode->Next` before comparing, so the head node's extension is never compared with `Ext` | `ilRegisterLoad("png", f)` on an empty list, then `ilRegisterLoad("PNG", g)`: the list holds `png` and `PNG` | as the `// already registered` comment at :35 says, re-registering any case variant of a registered extension is a no-op, so extensions stay pairwise distinct | high; not executed | `RegisterProps.HeadExtensionRegisteredTwice` (about `IlRegister.Registered`) | `RegisterProps.RegisterUnique` with `RegisterProps.RegisterUniqueKeepsDistinct`, `RegisterProps.RegisterUniqueTwice` |

The `Library` methods `RegisterLoad`/`RegisterSave` keep the as-written behaviour, because they model what DevIL does. `RegisteredAgreesOffHead` shows that the as-written and corrected registrations differ only when `Ext` matches the head. Every property proved for `RegisterUnique` therefore carries over to the library's registration in all other cases.

## Left out

- `ilRegisterPal` (il_register.c:366-383): raw palette buffer management. Its free condition and its `memcpy` into storage that `ialloc` may have failed to provide have no statable behaviour beyond "size and type are stored".
- The `_UNICODE` comparison branches (`wcsicmp`/`_wcsicmp`): not modelled. In remove and dispatch they test `_wcsicmp(...)` without `!`, which inverts the match. Only the `!stricmp` branch is modelled.
- Handler bodies: what a load or save callback does is outside the model. Handlers are opaque ids, and invoking one is a parameter function. Dispatch records which handler it invoked, as a ghost result, not the handler's side effects.
- `iGetExtension`: its internals are not modelled. It is the parameter `getExtension`.
- Memory primitives: `ialloc`, `ifree`, `ilStrDup` and `_wcsdup` are modelled only through allocation success. Copying the extension is a value copy, and freeing a node is dropping it from the sequence.
- Lists as sequences: the model does not capture pointer identity, aliasing of nodes, or an `ilStrDup` failure. `ilStrDup`'s result is not checked in the source.
- `sizeof(iFormatL)` used to allocate a save node (il_register.c:87): a size detail with no modelled meaning.
- `ilBindImage(ilGetCurName())` and the internals of `ilCloseImage` (il_register.c:290-291, 319-320): modelled only as "the old chain is discarded". The current image is taken as it is.
- `IlRegister.Library.RegisterMipNum`: the chain is represented by its node count. The individual `ILimage` nodes are not modelled.
- `IlRegister.Library.RegisterNumImages`: as for `RegisterMipNum`, the chain is represented by its node count.
- First chain allocation (il_register.c:297, 326): it is never null-checked, and a failure there dereferences null. The chain builders require it to succeed (`alloc(0)`).
- Tail pointers of chain nodes: the `Next` field of a freshly allocated chain node is never set, so after a full build the tail's link is uninitialised. The model assumes fresh nodes have no successor, which is what counting nodes means.
- The setters `ilRegisterOrigin`, `ilRegisterFormat` and `ilRegisterType` dereference `iCurImage` without a check. They require a current image; only `ilSetDuration` models the null case.
- The error state: `ilSetError` keeps an error stack, which is not part of this model. The model keeps only the most recent code, in `lastError`.
- Concurrency: none is present. The globals are unsynchronised.
