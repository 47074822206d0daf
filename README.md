# KeyViz hotkey registry and keymap shaping, in Dafny

KeyViz is a Windows tool that shows the layers of a keyboard keymap. Ctrl+1, Ctrl+2, … bring up layer 0, 1, …. This project models two parts of it and proves properties about them:

- **The global hotkey registry** (`KeyViz/HotKeyManager.cs`), in module `HotKeys`.
  - A `HotKeyHandler` binds a modifier mask and a key to a window. Its identity is `modifier ^ key ^ hWnd` on C# `int`.
  - A `HotKeyManager` keeps the handlers in a dictionary keyed by identity. `Add` refuses a duplicate identity with `-1`. `Clear` empties the table. `MatchHook` turns a `WM_HOTKEY` (0x0312) message into the identity it carries, or `-1`.
  - The two `user32.dll` calls belong to a class `User32`. It records the registered `(window, identity)` pairs in a ghost set, and its boolean results are arbitrary.
- **The keymap shaping and layer switching of the main window** (`KeyViz/MainWindow.xaml.cs`), in modules `Keymap` and `Window`:
  - the keys-per-row table (`tada68` has rows of 15, 15, 14, 14 and 10 keys, 68 in all);
  - the key-width table;
  - `CleanKeyName`;
  - the row splitting of `PopulateKeymap`. A layer too long for the rows makes it index past the row table; the handler catches that, and the layer and all later ones are dropped;
  - the `SelectedLayer` setter over the layer toggle buttons;
  - `ShowLayer`, which sizes the keys of any layer by the sizes computed from layer 0;
  - the binding of layer `i` to Ctrl + `D1 + i`, and the message hook that switches layer when the matched identity is positive.

C# `int` is the subset type `Int32`. Its `^` is `Bitwise.Xor`, which works bit by bit on the two's complement patterns. XOR undoes itself (`XorCancel`), which makes a binding's identity injective in its key for a fixed modifier and window. It follows that every layer gets its own hotkey (`LayerTableFresh`, `LayerTableSize`). Across modifiers the identity is not collision-free: Ctrl+1 and Alt+2 on the same window share an identity (`IdentityCollidesAcrossModifiers`), so the second of the two is refused by `Add`.

The model follows the code wherever the code and its comments or documentation differ:

- `Clear` only empties the table and releases nothing with the OS.
- `Add` stores the handler whether or not the OS accepted the registration.
- `-1` is not reserved. A genuine identity can be `-1` (`SentinelIsAnIdentity`), and the hook also ignores every identity that is zero or negative.

At start-up the window shows layer 0. Layer 0 is already the selected layer, so the setter returns early and no layer button is checked (`Window.MainWindow.constructor`).

## Model

| member | source | states |
|---|---|---|
| Bitwise.Xor | KeyViz/HotKeyManager.cs:59 | C#'s `a ^ b` on `int`: the two's complement pattern of the result is the bitwise XOR of the operands' patterns over 32 bits |
| Bitwise.XorBitwise | KeyViz/HotKeyManager.cs:59 | for each of the 32 bits, bit `i` of `a ^ b` is set exactly when bit `i` is set in exactly one operand |
| Bitwise.XorCancel | KeyViz/HotKeyManager.cs:59 | `(a ^ b) ^ b == a` for every pair of C# `int`s |
| Bitwise.XorSymmetric | KeyViz/HotKeyManager.cs:59 | `a ^ b == b ^ a` |
| Bitwise.XorInjective | KeyViz/HotKeyManager.cs:59 | with one operand fixed, XOR gives equal results exactly for equal other operands |
| HotKeys.Identity | KeyViz/HotKeyManager.cs:57-60 | the identity `modifier ^ key ^ hWnd` gives back the key once XORed with the window handle and the modifier |
| HotKeys.IdentityInjectiveInKey | KeyViz/HotKeyManager.cs:57-60 | two bindings that differ only in their key have different identities, in both directions |
| HotKeys.IdentityCollidesAcrossModifiers | KeyViz/HotKeyManager.cs:57-60 | for every window, Ctrl + `0x31` and Alt + `0x32` have the same identity |
| HotKeys.SentinelIsAnIdentity | KeyViz/HotKeyManager.cs:73-83 | for every modifier and key, some window handle makes the identity `-1`, the value `Add` also returns for a refused binding |
| HotKeys.User32.RegisterHotKey | KeyViz/HotKeyManager.cs:62-63 | on success the pair (window, identity) joins the registered set; on failure the set is unchanged |
| HotKeys.User32.UnregisterHotKey | KeyViz/HotKeyManager.cs:65-66 | the pair (window, identity) is no longer registered, whatever the result |
| HotKeys.HotKeyHandler.constructor | KeyViz/HotKeyManager.cs:33-40 | stores modifier, key and window; the identity field is defined from those three, so every handler's `id` is the identity of its own binding |
| HotKeys.HotKeyHandler.GetHashCode | KeyViz/HotKeyManager.cs:57-60 | the hash equals the handler's stored `id`, which is the binding's identity; the key is recovered from it given the window handle and the modifier |
| HotKeys.HotKeyHandler.Register | KeyViz/HotKeyManager.cs:47-50 | registers the handler's own (window, identity) pair with the modifier and key |
| HotKeys.HotKeyHandler.Unregister | KeyViz/HotKeyManager.cs:52-55 | unregisters the handler's own (window, identity) pair |
| HotKeys.HotKeyManager.constructor | KeyViz/HotKeyManager.cs:71 | the table starts empty |
| HotKeys.HotKeyManager.Add | KeyViz/HotKeyManager.cs:73-83 | a known identity returns `-1` and leaves the table and the OS registrations unchanged. A new identity is returned and gets a fresh handler with the given fields; the table grows by exactly that key and keeps every old entry; registration either succeeds or changes nothing |
| HotKeys.HotKeyManager.Clear | KeyViz/HotKeyManager.cs:85-88 | the table is empty afterwards, also when it already was; OS registrations are untouched (`modifies` names only the manager) |
| HotKeys.HotKeyManager.MatchHook | KeyViz/HotKeyManager.cs:90-104 | returns `wParam` exactly when the message is `WM_HOTKEY` and `wParam` is a key of the table, `-1` otherwise; it changes nothing |
| HotKeys.AddTwice | KeyViz/HotKeyManager.cs:73-83 | adding the same binding twice to an empty registry returns its identity, then `-1`, and the table holds one entry |
| HotKeys.MatchAfterClear | KeyViz/HotKeyManager.cs:85-104 | before `Clear` a message matches exactly when it is `WM_HOTKEY` carrying the binding's identity; after `Clear`, nothing matches |
| Keymap.RowWidth | KeyViz/MainWindow.xaml.cs:183 | the `>=` test closes a row at its count, or after one key when the count is below one |
| Keymap.KeysPerRow | KeyViz/MainWindow.xaml.cs:33-40 | `tada68` has exactly five rows, all positive, holding 68 keys together; any other name has no rows |
| Keymap.SplitLayer | KeyViz/MainWindow.xaml.cs:176-188 | the loop completes exactly when the layer holds no more keys than the rows take in all; then its rows are the splitting of the layer (each completed row `r` has row `r`'s count, the rows joined are a prefix of the layer, and the left-over open row is dropped) |
| Keymap.SplitUnique | KeyViz/MainWindow.xaml.cs:179-188 | a layer has exactly one splitting: two row lists that both split it are equal |
| Keymap.FullLayerFillsEveryRow | KeyViz/MainWindow.xaml.cs:179-194 | a layer with exactly as many keys as the rows take fills every row, and the rows joined are the whole layer |
| Keymap.KeyWidth | KeyViz/MainWindow.xaml.cs:45-67 | a key's width is its table entry (between 1.0 and 6.25) and is 1.0 exactly when the name is not in the table |
| Keymap.GetKeySizes | KeyViz/MainWindow.xaml.cs:41-73 | for `tada68`, one row of widths per layer row, of the same length, each the key's `KeyWidth`; for other keyboards, no rows; the table and each of its rows are newly allocated |
| Keymap.SplitSizedByIff | KeyViz/MainWindow.xaml.cs:229-240 | for two layers split with the same row counts, the key sizes of the first cover the second exactly when the second has no more completed rows |
| Keymap.RemoveAll | KeyViz/MainWindow.xaml.cs:103 | `s.Replace(pat, "")`: the result is never longer than `s`; `RemoveAllLeftmost` and `RemoveAllWithout` together determine it |
| Keymap.RemoveAllLeftmost | KeyViz/MainWindow.xaml.cs:103 | the first occurrence of `pat` is removed and the scan resumes right after it: with no occurrence starting inside `x`, removal from `x + pat + y` gives `x` followed by removal from `y` |
| Keymap.RemoveAllUnchangedIff | KeyViz/MainWindow.xaml.cs:103 | `Replace(pat, "")` leaves a string unchanged exactly when `pat` does not occur in it |
| Keymap.CleanKeyName | KeyViz/MainWindow.xaml.cs:100-105 | `KC_TRNS` becomes empty; any other name comes back unchanged exactly when it contains no `KC_`, and never gets longer |
| Keymap.CleanKeyNameStripsPrefix | KeyViz/MainWindow.xaml.cs:100-105 | `KC_` followed by a name without `KC_` (other than `TRNS`) cleans to that name |
| Keymap.CleanKeyNameRemovesEveryOccurrence | KeyViz/MainWindow.xaml.cs:100-105 | every occurrence is removed, not only the first: `KC_AKC_B` cleans to `AB` |
| Keymap.CleanKeyNameIsSinglePass | KeyViz/MainWindow.xaml.cs:103 | one left-to-right pass: `KKC_C_` cleans to `KC_`, which still holds the prefix |
| Window.LayerHotKey | KeyViz/MainWindow.xaml.cs:323 | layer `i`'s identity gives back the key `D1 + i` once XORed with the window handle and Ctrl |
| Window.LayerHotKeysDistinct | KeyViz/MainWindow.xaml.cs:321-325 | two layers have the same hotkey identity exactly when they are the same layer |
| Window.LayerTable | KeyViz/MainWindow.xaml.cs:321-325 | the table built by binding layers `0 .. n-1` leads only to those layers |
| Window.LayerTableLookup | KeyViz/MainWindow.xaml.cs:321-325 | every bound layer's identity is in the table and leads back to that layer |
| Window.LayerTableInverse | KeyViz/MainWindow.xaml.cs:321-325 | every identity in the table is the hotkey of the layer it leads to |
| Window.LayerTableFresh | KeyViz/MainWindow.xaml.cs:321-325 | the next layer's identity is not in the table yet, so `Add` never refuses a layer |
| Window.LayerTableSize | KeyViz/MainWindow.xaml.cs:321-325 | binding `n` layers yields `n` distinct identities |
| Window.LayerPairs | KeyViz/MainWindow.xaml.cs:321-325 | the (window, identity) pairs registering layers `0 .. n-1` can add: each layer's pair is in it, and each of its identities is a key of the layer table |
| Window.IndexedButton.constructor | KeyViz/MainWindow.xaml.cs:152-159 | a new layer button carries its index and starts unchecked |
| Window.MainWindow.constructor | KeyViz/MainWindow.xaml.cs:267-275 | the layers are the splittings of the parsed layers up to the first that does not fit; each gets a button with its index; layer 0 is shown and selected, and no button is checked |
| Window.MainWindow.PopulateKeymap | KeyViz/MainWindow.xaml.cs:161-218 | keeps the splitting of every layer before the first one too long for the rows, drops that one and all later ones, and adds one unchecked button per kept layer, button `l` carrying index `l` |
| Window.MainWindow.SetSelectedLayer | KeyViz/MainWindow.xaml.cs:128-142 | an equal value changes nothing; a new value becomes the selected layer and exactly the button with that index is checked |
| Window.MainWindow.ShowLayer | KeyViz/MainWindow.xaml.cs:226-248 | the layer is shown exactly when every key has a size at its row and column in layer 0's key sizes; it is then selected as by the setter, otherwise the exception leaves selection and buttons unchanged |
| Window.MainWindow.OnSourceInitialized | KeyViz/MainWindow.xaml.cs:313-326 | afterwards the registry's identities are exactly the table's keys; the table maps layer `i`'s Ctrl + `D1 + i` identity to `i` and holds nothing else; the handler stored under that identity has modifier Ctrl, key `D1 + i` and the window's handle; the OS registrations only grow, and only by the layers' (window, identity) pairs |
| Window.MainWindow.BindLayer | KeyViz/MainWindow.xaml.cs:323-324 | one loop pass extends the registry and the table by layer `i`'s identity, keeps every earlier handler, stores a Ctrl + `D1 + i` handler on the window for layer `i`, and registers at most that layer's pair |
| Window.MainWindow.AddLayerHotKey | KeyViz/MainWindow.xaml.cs:323 | `Add(CTRL, D1 + i, window)` on a registry without layer `i`'s identity returns that identity and stores a new Ctrl + `D1 + i` handler on the window under it, keeping the other entries |
| Window.MainWindow.HwndHook | KeyViz/MainWindow.xaml.cs:351-367 | a `WM_HOTKEY` carrying a registered positive identity shows and selects that identity's layer and marks the message handled, unless the layer cannot be drawn, in which case the exception leaves the hook; every other message leaves the handled flag and the window as they were |
| Window.MainWindow.OnClosed | KeyViz/MainWindow.xaml.cs:328-334 | closing the window empties the registry and keeps the window consistent |

## Left out

- The `user32.dll` calls `RegisterHotKey` and `UnregisterHotKey` are foreign code. Their boolean results are arbitrary, and only the set of registered (window, identity) pairs is tracked.
- The finalizer `~HotKeyHandler` runs at garbage collection, which is non-deterministic. The release of a handler when it is collected is not modelled. That covers the duplicate handler `Add` builds and then drops, whose finalizer would unregister the pair the stored handler still uses.
- Obtaining the window handle through `WindowInteropHelper` is left out: the handle is a plain `Int32` parameter. `IntPtr.ToInt32` on the handle and on `wParam` throws in a 64-bit process when the value does not fit in 32 bits; the model takes both as `Int32`, so that exception is not modelled.
- Reading the keymap file, JSON deserialisation and `getPath` are I/O. `PopulateKeymap` takes the keyboard name and the parsed layers as parameters. A file or parse failure, which the same handler catches, is not modelled.
- Window.MainWindow.constructor: requires the first parsed layer to fit the rows. In the source, `ShowLayer(0)` otherwise indexes an empty layer list and the constructor throws, which the model does not represent.
- Window.MainWindow.OnSourceInitialized: requires `D1 + layers` to stay within `int`. The source adds to the `Keys` enum without a check, which could only wrap with more than two billion layers.
- WPF and WinForms presentation is left out:
  - the tray icon and its balloon, `MinimizeToTray`, `RestoreFromTray`, `OnStateChanged` and `StartHideTimer` (timer and live keyboard state);
  - adding and removing the `HwndSource` hook;
  - `SelectLayerButton_Click`, which only calls `ShowLayer` with the button's index;
  - the button texts and widths, and the panels `ShowLayer` fills.

  Of `CreateGraphicalKey`, only the lookup of `keySizes[row][column]` is kept. Its float pixel product and the label from `CleanKeyName` are presentation.
- Key widths are `real`. The C# `float` constants (1.0, 1.25, 1.5, 1.75, 2.0, 2.25, 6.25) are exact in binary, so nothing is lost.
- The empty branch `keys.Count != keysPerRow.Length` in `PopulateKeymap` does nothing, so it has no counterpart in the model.
