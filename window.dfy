/**
 * The main window of KeyViz (KeyViz/MainWindow.xaml.cs), reduced to the
 * state its logic keeps: the parsed layers, one toggle button per layer,
 * the selected layer, the hotkey registry and the table from hotkey
 * identity to layer. Drawing, the tray icon and the window's show/hide
 * state are not part of this model.
 */
module Window {
  import opened Bitwise
  import opened HotKeys
  import opened Keymap

  /** The virtual-key code of the digit key 1 (System.Windows.Forms.Keys.D1). */
  const D1: Int32 := 0x31

  /** The identity of the hotkey Ctrl + (1 + layer) bound to the window. */
  function LayerHotKey(hWnd: Int32, layer: nat): (id: Int32)
    requires D1 + layer < 0x8000_0000
    ensures Xor(Xor(id, hWnd), CTRL) == D1 + layer
  {
    Identity(CTRL, D1 + layer, hWnd)
  }

  /** Different layers get different hotkey identities. */
  lemma LayerHotKeysDistinct(hWnd: Int32, i: nat, j: nat)
    requires D1 + i < 0x8000_0000 && D1 + j < 0x8000_0000
    ensures LayerHotKey(hWnd, i) == LayerHotKey(hWnd, j) <==> i == j
  {
    IdentityInjectiveInKey(CTRL, D1 + i, D1 + j, hWnd);
  }

  /** The table from hotkey identity to layer once layers 0 .. n-1 are bound. */
  function LayerTable(hWnd: Int32, n: nat): (m: map<Int32, int>)
    requires D1 + n <= 0x8000_0000
    ensures forall id | id in m :: 0 <= m[id] < n
  {
    if n == 0 then map[]
    else LayerTable(hWnd, n - 1)[LayerHotKey(hWnd, n - 1) := n - 1]
  }

  /** Each layer's hotkey leads to that layer. */
  lemma {:induction false} LayerTableLookup(hWnd: Int32, n: nat, k: nat)
    requires D1 + n <= 0x8000_0000 && k < n
    ensures LayerHotKey(hWnd, k) in LayerTable(hWnd, n)
    ensures LayerTable(hWnd, n)[LayerHotKey(hWnd, k)] == k
  {
    if k < n - 1 {
      LayerTableLookup(hWnd, n - 1, k);
      LayerHotKeysDistinct(hWnd, k, n - 1);
    }
  }

  /** Every identity in the table is the hotkey of the layer it leads to. */
  lemma {:induction false} LayerTableInverse(hWnd: Int32, n: nat, id: Int32)
    requires D1 + n <= 0x8000_0000 && id in LayerTable(hWnd, n)
    ensures id == LayerHotKey(hWnd, LayerTable(hWnd, n)[id])
  {
    if n > 0 && id != LayerHotKey(hWnd, n - 1) {
      LayerTableInverse(hWnd, n - 1, id);
    }
  }

  /** The hotkey of the next layer is not yet in the table. */
  lemma LayerTableFresh(hWnd: Int32, n: nat)
    requires D1 + n < 0x8000_0000
    ensures LayerHotKey(hWnd, n) !in LayerTable(hWnd, n)
  {
    forall id | id in LayerTable(hWnd, n)
      ensures id != LayerHotKey(hWnd, n)
    {
      LayerTableInverse(hWnd, n, id);
      LayerHotKeysDistinct(hWnd, LayerTable(hWnd, n)[id], n);
    }
  }

  /** n layers take n distinct identities. */
  lemma {:induction false} LayerTableSize(hWnd: Int32, n: nat)
    requires D1 + n <= 0x8000_0000
    ensures |LayerTable(hWnd, n)| == n
  {
    if n > 0 {
      LayerTableSize(hWnd, n - 1);
      LayerTableFresh(hWnd, n - 1);
    }
  }

  /** The (window, identity) pairs of the hotkeys of layers 0 .. n-1. */
  function LayerPairs(hWnd: Int32, n: nat): (pairs: set<(Int32, Int32)>)
    requires D1 + n <= 0x8000_0000
    ensures forall k | 0 <= k < n :: (hWnd, LayerHotKey(hWnd, k)) in pairs
    ensures forall p | p in pairs :: p.0 == hWnd && p.1 in LayerTable(hWnd, n)
  {
    if n == 0 then {}
    else
      LayerTableLookup(hWnd, n, n - 1);
      LayerPairs(hWnd, n - 1) + {(hWnd, LayerHotKey(hWnd, n - 1))}
  }

  /** In hotKeys, layer k's identity holds a handler for Ctrl + (1 + k) on the window, for every k < n. */
  ghost predicate LayersBound(hWnd: Int32, hotKeys: map<Int32, HotKeyHandler>, n: nat)
    requires D1 + n <= 0x8000_0000
  {
    forall k | 0 <= k < n ::
      && LayerHotKey(hWnd, k) in hotKeys
      && hotKeys[LayerHotKey(hWnd, k)].modifier == CTRL
      && hotKeys[LayerHotKey(hWnd, k)].key == D1 + k
      && hotKeys[LayerHotKey(hWnd, k)].hWnd == hWnd
  }

  /** Keeping the old entries and binding layer n extends the bound layers by one. */
  lemma LayersBoundStep(hWnd: Int32, before: map<Int32, HotKeyHandler>, after: map<Int32, HotKeyHandler>, n: nat)
    requires D1 + n < 0x8000_0000 && LayersBound(hWnd, before, n)
    requires forall id | id in before :: id in after && after[id] == before[id]
    requires LayerHotKey(hWnd, n) in after
    requires after[LayerHotKey(hWnd, n)].modifier == CTRL && after[LayerHotKey(hWnd, n)].key == D1 + n
    requires after[LayerHotKey(hWnd, n)].hWnd == hWnd
    ensures LayersBound(hWnd, after, n + 1)
  {
    forall k | 0 <= k < n + 1
      ensures LayerHotKey(hWnd, k) in after
      ensures after[LayerHotKey(hWnd, k)].modifier == CTRL && after[LayerHotKey(hWnd, k)].key == D1 + k
      ensures after[LayerHotKey(hWnd, k)].hWnd == hWnd
    {
      if k < n {
        var h := LayerHotKey(hWnd, k);
        assert h in before && after[h] == before[h];
      }
    }
  }

  /** A toggle button that selects the layer given by its index. */
  class IndexedButton {
    var index: int
    var isChecked: bool

    constructor (index: int)
      ensures this.index == index && !isChecked
    {
      this.index := index;
      isChecked := false;
    }
  }

  class MainWindow {
    const hWnd: Int32
    const hkManager: HotKeyManager
    var hkHash2Layer: map<Int32, int>
    var keyboardName: string
    var layers: seq<seq<seq<string>>>
    var selectedLayer: int
    /** The children of the layer button bar, in order. */
    var buttons: seq<IndexedButton>

    /**
     * Button l selects layer l, and every identity the registry can match
     * leads to a layer that exists.
     */
    ghost predicate Valid()
      reads this, hkManager, buttons
    {
      && hkManager.Valid()
      && |buttons| == |layers|
      && (forall l | 0 <= l < |buttons| :: buttons[l].index == l)
      && (forall id | id in hkManager.hotKeys :: id in hkHash2Layer && 0 <= hkHash2Layer[id] < |layers|)
    }

    /** The message is a hotkey the registry matches to a positive identity. */
    ghost predicate Dispatches(msg: Int32, wParam: Int32)
      reads this, hkManager
    {
      msg == WM_HOTKEY_MSG_ID && wParam in hkManager.hotKeys && wParam > 0
    }

    /** Exactly the button of the given layer is checked. */
    ghost predicate ChecksOnly(layer: int)
      reads this, buttons
    {
      forall l | 0 <= l < |buttons| :: buttons[l].isChecked == (l == layer)
    }

    /** Layer k's identity holds a handler for Ctrl + (1 + k), for every k < n. */
    ghost predicate BindsLayers(n: nat)
      requires D1 + n <= 0x8000_0000
      reads this, hkManager
    {
      LayersBound(hWnd, hkManager.hotKeys, n)
    }

    /**
     * The window's construction: load the keymap, then show layer 0. Showing
     * layer 0 reads layers[0], so the first layer must have been split.
     * Layer 0 is already the selected layer, so no button is checked.
     */
    constructor (hWnd: Int32, keyboard: string, dlayers: seq<seq<string>>)
      requires dlayers != [] && |dlayers[0]| <= TotalWidth(KeysPerRow(keyboard))
      ensures Valid() && fresh(hkManager) && hkManager.hotKeys == map[] && hkHash2Layer == map[]
      ensures this.hWnd == hWnd && keyboardName == keyboard
      ensures 1 <= |layers| <= |dlayers|
      ensures forall l | 0 <= l < |layers| :: IsSplitOf(KeysPerRow(keyboard), dlayers[l], layers[l])
      ensures |layers| < |dlayers| ==> |dlayers[|layers|]| > TotalWidth(KeysPerRow(keyboard))
      ensures selectedLayer == 0 && ChecksOnly(-1)
      ensures forall l | 0 <= l < |buttons| :: fresh(buttons[l])
    {
      this.hWnd := hWnd;
      hkManager := new HotKeyManager();
      hkHash2Layer := map[];
      keyboardName := "";
      layers := [];
      selectedLayer := 0;
      buttons := [];
      new;
      PopulateKeymap(keyboard, dlayers);
      // Layer 0 is always sized by its own key sizes, so this does not throw.
      SplitSizedByIff(keyboard, dlayers[0], layers[0], dlayers[0], layers[0]);
      var shown := ShowLayer(0);
      assert shown;
    }

    /**
     * Splits every parsed layer into rows with the keyboard's row counts,
     * until a layer has more keys than the rows hold: indexing past the row
     * counts throws, the handler swallows it, and that layer and all later
     * ones are dropped. Then one unchecked button per kept layer is added.
     */
    method PopulateKeymap(keyboard: string, dlayers: seq<seq<string>>)
      requires Valid() && layers == [] && buttons == []
      modifies this
      ensures Valid()
      ensures hkHash2Layer == old(hkHash2Layer) && selectedLayer == old(selectedLayer)
      ensures keyboardName == keyboard
      ensures |layers| <= |dlayers|
      ensures forall l | 0 <= l < |layers| :: IsSplitOf(KeysPerRow(keyboard), dlayers[l], layers[l])
      ensures |layers| < |dlayers| ==> |dlayers[|layers|]| > TotalWidth(KeysPerRow(keyboard))
      ensures ChecksOnly(-1) && forall l | 0 <= l < |buttons| :: fresh(buttons[l])
    {
      keyboardName := keyboard;
      var keysPerRow := KeysPerRow(keyboardName);
      var l := 0;
      while l < |dlayers|
        invariant 0 <= l <= |dlayers| && |layers| == l && keyboardName == keyboard
        invariant forall k | 0 <= k < l :: IsSplitOf(keysPerRow, dlayers[k], layers[k])
        invariant buttons == [] && hkHash2Layer == old(hkHash2Layer) && selectedLayer == old(selectedLayer)
      {
        var keys := SplitLayer(keysPerRow, dlayers[l]);
        if keys.IndexOutOfRange? {
          break;
        }
        layers := layers + [keys.value];
        l := l + 1;
      }
      ghost var split := layers;
      for l := 0 to |layers|
        invariant layers == split && keyboardName == keyboard
        invariant hkHash2Layer == old(hkHash2Layer) && selectedLayer == old(selectedLayer)
        invariant |buttons| == l
        invariant forall k | 0 <= k < l :: buttons[k].index == k && !buttons[k].isChecked && fresh(buttons[k])
      {
        var b := new IndexedButton(l);
        buttons := buttons + [b];
      }
    }

    /**
     * The SelectedLayer setter: nothing happens when the value is the
     * selected layer; otherwise it becomes the selected layer and exactly
     * the button with that index is checked.
     */
    method SetSelectedLayer(value: int)
      requires Valid()
      modifies this`selectedLayer, buttons
      ensures Valid()
      ensures selectedLayer == value
      ensures old(selectedLayer) == value ==>
        forall l | 0 <= l < |buttons| :: buttons[l].isChecked == old(buttons[l].isChecked)
      ensures old(selectedLayer) != value ==> ChecksOnly(value)
    {
      if selectedLayer == value {
        return;
      }
      selectedLayer := value;
      for j := 0 to |buttons|
        invariant selectedLayer == value
        invariant forall l | 0 <= l < |buttons| :: buttons[l].index == l
        invariant forall l | 0 <= l < j :: buttons[l].isChecked == (l == value)
      {
        var b := buttons[j];
        b.isChecked := selectedLayer == b.index;
      }
    }

    /**
     * Shows a layer: computes the key sizes from layer 0, looks up the size
     * of every key of the shown layer, then selects it. A key with no size
     * at its row and column throws before the layer is selected.
     */
    method ShowLayer(layerIndex: int) returns (shown: bool)
      requires Valid() && 0 <= layerIndex < |layers|
      modifies this`selectedLayer, buttons
      ensures Valid()
      ensures shown <==> SizedBy(layers[layerIndex], layers[0], keyboardName)
      ensures shown ==> selectedLayer == layerIndex
      ensures shown && old(selectedLayer) != layerIndex ==> ChecksOnly(layerIndex)
      ensures !shown || old(selectedLayer) == layerIndex ==>
        && selectedLayer == old(selectedLayer)
        && forall l | 0 <= l < |buttons| :: buttons[l].isChecked == old(buttons[l].isChecked)
    {
      var keySizes := GetKeySizes(keyboardName, layers[0]);
      var layer := layers[layerIndex];
      for r := 0 to |layer|
        invariant forall q | 0 <= q < r :: RowSizedBy(layer, layers[0], keyboardName, q)
      {
        var row := layer[r];
        for k := 0 to |row|
          invariant k > 0 ==> r < keySizes.Length && k <= keySizes[r].Length
        {
          // CreateGraphicalKey reads keySizes[r][k]
          if r >= keySizes.Length || k >= keySizes[r].Length {
            assert !RowSizedBy(layer, layers[0], keyboardName, r);
            return false;
          }
        }
      }
      SetSelectedLayer(layerIndex);
      shown := true;
    }

    /**
     * Binds layer i to Ctrl + (1 + i) for every layer, and records which
     * layer each identity stands for.
     */
    method OnSourceInitialized(os: User32)
      requires Valid() && hkManager.hotKeys == map[] && hkHash2Layer == map[]
      requires D1 + |layers| <= 0x8000_0000
      modifies this`hkHash2Layer, hkManager, os
      ensures Valid()
      ensures hkManager.hotKeys.Keys == hkHash2Layer.Keys
      ensures hkHash2Layer == LayerTable(hWnd, |layers|)
      ensures BindsLayers(|layers|)
      ensures old(os.registered) <= os.registered <= old(os.registered) + LayerPairs(hWnd, |layers|)
    {
      for i := 0 to |layers|
        invariant hkManager.Valid()
        invariant hkManager.hotKeys.Keys == hkHash2Layer.Keys
        invariant hkHash2Layer == LayerTable(hWnd, i)
        invariant BindsLayers(i)
        invariant old(os.registered) <= os.registered <= old(os.registered) + LayerPairs(hWnd, i)
      {
        BindLayer(i, os, old(os.registered));
      }
    }

    /**
     * One pass of the loop of OnSourceInitialized: binds layer i to
     * Ctrl + (1 + i). The OS registrations made since `base` stay among the
     * pairs of the layers bound so far.
     */
    method BindLayer(i: nat, os: User32, ghost base: set<(Int32, Int32)>)
      requires hkManager.Valid() && D1 + i < 0x8000_0000
      requires hkManager.hotKeys.Keys == hkHash2Layer.Keys && hkHash2Layer == LayerTable(hWnd, i)
      requires BindsLayers(i)
      requires base <= os.registered <= base + LayerPairs(hWnd, i)
      modifies this`hkHash2Layer, hkManager, os
      ensures hkManager.Valid()
      ensures hkManager.hotKeys.Keys == hkHash2Layer.Keys && hkHash2Layer == LayerTable(hWnd, i + 1)
      ensures forall id | id in old(hkManager.hotKeys) :: hkManager.hotKeys[id] == old(hkManager.hotKeys[id])
      ensures os.registered == old(os.registered) || os.registered == old(os.registered) + {(hWnd, LayerHotKey(hWnd, i))}
      ensures BindsLayers(i + 1)
      ensures base <= os.registered <= base + LayerPairs(hWnd, i + 1)
    {
      LayerTableFresh(hWnd, i);
      ghost var before := hkManager.hotKeys;
      var id := AddLayerHotKey(i, os);
      hkHash2Layer := hkHash2Layer[id := i];
      LayersBoundStep(hWnd, before, hkManager.hotKeys, i);
    }

    /** The Add call of BindLayer: layer i's identity is new, so Add stores it. */
    method AddLayerHotKey(i: nat, os: User32) returns (id: Int32)
      requires hkManager.Valid() && D1 + i < 0x8000_0000
      requires LayerHotKey(hWnd, i) !in hkManager.hotKeys
      modifies hkManager, os
      ensures hkManager.Valid()
      ensures id == LayerHotKey(hWnd, i)
      ensures hkManager.hotKeys.Keys == old(hkManager.hotKeys).Keys + {id}
      ensures forall k | k in old(hkManager.hotKeys) :: hkManager.hotKeys[k] == old(hkManager.hotKeys[k])
      ensures hkManager.hotKeys[id].modifier == CTRL && hkManager.hotKeys[id].key == D1 + i
      ensures hkManager.hotKeys[id].hWnd == hWnd
      ensures os.registered == old(os.registered) || os.registered == old(os.registered) + {(hWnd, id)}
    {
      id := hkManager.Add(CTRL, D1 + i, hWnd, os);
    }

    /**
     * The window message hook: a message the registry matches to a positive
     * identity shows that identity's layer and is marked handled; when the
     * layer cannot be drawn, the exception leaves the hook. Any other
     * message leaves everything as it was.
     */
    method HwndHook(msg: Int32, wParam: Int32, handledIn: bool) returns (handled: Outcome<bool>)
      requires Valid()
      modifies this`selectedLayer, buttons
      ensures Valid()
      ensures !Dispatches(msg, wParam) ==> handled == Ok(handledIn)
      ensures Dispatches(msg, wParam) ==>
        && (handled.Ok? <==> SizedBy(layers[hkHash2Layer[wParam]], layers[0], keyboardName))
        && (handled.Ok? ==> handled.value && selectedLayer == hkHash2Layer[wParam])
      ensures old(selectedLayer) != selectedLayer ==> ChecksOnly(selectedLayer)
      ensures old(selectedLayer) == selectedLayer ==>
        forall l | 0 <= l < |buttons| :: buttons[l].isChecked == old(buttons[l].isChecked)
      ensures !handled.Ok? || !Dispatches(msg, wParam) ==> selectedLayer == old(selectedLayer)
    {
      var id := hkManager.MatchHook(msg, wParam);
      if id > 0 {
        var layer := hkHash2Layer[id];
        var shown := ShowLayer(layer);
        if !shown {
          return IndexOutOfRange;
        }
        return Ok(true);
      }
      return Ok(handledIn);
    }

    /** Closing the window empties the registry. */
    method OnClosed()
      requires Valid()
      modifies hkManager
      ensures Valid() && hkManager.hotKeys == map[]
    {
      hkManager.Clear();
    }
  }
}
