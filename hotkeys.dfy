/**
 * The global hotkey registry of KeyViz (KeyViz/HotKeyManager.cs): one
 * handler per (modifier, key, window) binding, and a manager that keeps the
 * handlers in a dictionary keyed by their identity and matches incoming
 * window messages against it.
 */
module HotKeys {
  import opened Bitwise

  // Modifier masks accepted by RegisterHotKey.
  const NOMOD: Int32 := 0x0000
  const ALT: Int32 := 0x0001
  const CTRL: Int32 := 0x0002
  const SHIFT: Int32 := 0x0004
  const WIN: Int32 := 0x0008

  /** The Win32 message kind WM_HOTKEY. */
  const WM_HOTKEY_MSG_ID: Int32 := 0x0312

  /** Returned by Add for a refused binding and by MatchHook for no match. */
  const NOT_FOUND: Int32 := -1

  /**
   * The identity of a binding: modifier XOR key XOR window handle. XOR is
   * its own inverse, so the key is recovered from the identity, the window
   * handle and the modifier.
   */
  function Identity(modifier: Int32, key: Int32, hWnd: Int32): (id: Int32)
    ensures Xor(Xor(id, hWnd), modifier) == key
  {
    var id := Xor(Xor(modifier, key), hWnd);
    XorCancel(Xor(modifier, key), hWnd);
    XorSymmetric(modifier, key);
    XorCancel(key, modifier);
    id
  }

  /** Bindings that differ only in their key have different identities. */
  lemma IdentityInjectiveInKey(modifier: Int32, key1: Int32, key2: Int32, hWnd: Int32)
    ensures Identity(modifier, key1, hWnd) == Identity(modifier, key2, hWnd) <==> key1 == key2
  {
  }

  /**
   * Bindings that differ in both modifier and key can share an identity:
   * Ctrl+1 and Alt+2 on the same window (0x2 ^ 0x31 == 0x1 ^ 0x32 == 0x33),
   * so adding one after the other is refused.
   */
  lemma IdentityCollidesAcrossModifiers(hWnd: Int32)
    ensures Identity(CTRL, 0x31, hWnd) == Identity(ALT, 0x32, hWnd)
  {
    Pow2Of32();
    assert Pow2(32) == 4 * Pow2(30) == 2 * Pow2(31);
    assert XorBits(1, 24, 31) == 1 + 2 * XorBits(0, 12, 30);
    XorBitsZeroLeft(12, 30);
    assert XorBits(CTRL, 0x31, Width()) == 0x33;
    XorBitsZeroLeft(25, 31);
    assert XorBits(ALT, 0x32, Width()) == 0x33;
  }

  /**
   * -1 is not reserved: for every modifier and key there is a window handle
   * whose binding has the identity -1, so a successful Add can return the
   * same value as a refused one.
   */
  lemma SentinelIsAnIdentity(modifier: Int32, key: Int32)
    ensures Identity(modifier, key, Xor(Xor(modifier, key), NOT_FOUND)) == NOT_FOUND
  {
    var x := Xor(modifier, key);
    XorSymmetric(x, Xor(x, NOT_FOUND));
    XorSymmetric(x, NOT_FOUND);
    XorCancel(NOT_FOUND, x);
  }

  /**
   * The operating system's table of global hotkeys (user32.dll). Only the
   * pairs (window handle, identity) registered through this model are
   * tracked; whether the OS accepts or refuses a registration is outside
   * the model, so the boolean results are arbitrary.
   */
  class User32 {
    ghost var registered: set<(Int32, Int32)>

    constructor ()
      ensures registered == {}
    {
      registered := {};
    }

    method RegisterHotKey(hWnd: Int32, id: Int32, fsModifiers: Int32, vk: Int32) returns (ok: bool)
      modifies this
      ensures registered == if ok then old(registered) + {(hWnd, id)} else old(registered)
    {
      ok := *;
      if ok {
        registered := registered + {(hWnd, id)};
      }
    }

    method UnregisterHotKey(hWnd: Int32, id: Int32) returns (ok: bool)
      modifies this
      ensures registered == old(registered) - {(hWnd, id)}
    {
      ok := *;
      registered := registered - {(hWnd, id)};
    }
  }

  /** One global hotkey: a modifier mask and a key bound to a window. */
  class HotKeyHandler {
    const modifier: Int32
    const key: Int32
    const hWnd: Int32
    /** The identity, computed once from the three inputs. */
    const id: Int32 := Identity(modifier, key, hWnd)

    constructor (modifier: Int32, key: Int32, hWnd: Int32)
      ensures this.modifier == modifier && this.key == key && this.hWnd == hWnd
      ensures id == Identity(modifier, key, hWnd)
    {
      this.modifier := modifier;
      this.key := key;
      this.hWnd := hWnd;
    }

    /**
     * Recomputed from the fields, the identity is the one stored at
     * construction, and the key is recovered from it.
     */
    function GetHashCode(): (h: Int32)
      ensures h == id
      ensures h == Identity(modifier, key, hWnd)
      ensures Xor(Xor(h, hWnd), modifier) == key
    {
      Identity(modifier, key, hWnd)
    }

    method Register(os: User32) returns (ok: bool)
      modifies os
      ensures os.registered == if ok then old(os.registered) + {(hWnd, id)} else old(os.registered)
    {
      ok := os.RegisterHotKey(hWnd, id, modifier, key);
    }

    method Unregister(os: User32) returns (ok: bool)
      modifies os
      ensures os.registered == old(os.registered) - {(hWnd, id)}
    {
      ok := os.UnregisterHotKey(hWnd, id);
    }
  }

  /** The registry: handlers keyed by their identity. */
  class HotKeyManager {
    var hotKeys: map<Int32, HotKeyHandler>

    /** Every handler is stored under its own identity. */
    ghost predicate Valid()
      reads this
    {
      forall id | id in hotKeys :: hotKeys[id].id == id
    }

    constructor ()
      ensures Valid() && hotKeys == map[]
    {
      hotKeys := map[];
    }

    /**
     * Adds a binding. A binding whose identity is already a key is refused
     * with -1 and nothing is registered; otherwise the OS registration is
     * attempted, its outcome ignored, and the handler stored.
     */
    method Add(modifier: Int32, key: Int32, hWnd: Int32, os: User32) returns (r: Int32)
      requires Valid()
      modifies this, os
      ensures Valid()
      ensures Identity(modifier, key, hWnd) in old(hotKeys) ==>
        r == NOT_FOUND && hotKeys == old(hotKeys) && os.registered == old(os.registered)
      ensures Identity(modifier, key, hWnd) !in old(hotKeys) ==>
        && r == Identity(modifier, key, hWnd)
        && hotKeys.Keys == old(hotKeys).Keys + {r}
        && |hotKeys| == |old(hotKeys)| + 1
        && (forall id | id in old(hotKeys) :: hotKeys[id] == old(hotKeys)[id])
        && fresh(hotKeys[r])
        && hotKeys[r].modifier == modifier && hotKeys[r].key == key && hotKeys[r].hWnd == hWnd
        && (os.registered == old(os.registered) || os.registered == old(os.registered) + {(hWnd, r)})
    {
      var hdl := new HotKeyHandler(modifier, key, hWnd);
      var id := hdl.GetHashCode();
      if id in hotKeys {
        return NOT_FOUND;
      }
      var _ := hdl.Register(os);
      hotKeys := hotKeys[id := hdl];
      r := id;
    }

    /** Empties the table; the OS registrations are left as they are. */
    method Clear()
      modifies this
      ensures Valid() && hotKeys == map[]
    {
      hotKeys := map[];
    }

    /**
     * The identity a window message stands for: the payload when the message
     * is WM_HOTKEY and the payload is a stored identity, -1 otherwise.
     */
    method MatchHook(msg: Int32, wParam: Int32) returns (r: Int32)
      ensures msg == WM_HOTKEY_MSG_ID && wParam in hotKeys ==> r == wParam
      ensures msg != WM_HOTKEY_MSG_ID || wParam !in hotKeys ==> r == NOT_FOUND
    {
      if msg == WM_HOTKEY_MSG_ID {
        var unseen := hotKeys.Keys;
        while unseen != {}
          invariant unseen <= hotKeys.Keys
          invariant wParam in hotKeys ==> wParam in unseen
          decreases unseen
        {
          var k :| k in unseen;
          var id := wParam;
          if id == k {
            return id;
          }
          unseen := unseen - {k};
        }
      }
      return NOT_FOUND;
    }
  }

  /**
   * Adding the same (modifier, key, window) twice: the first call returns the
   * identity, the second -1, the table keeps one entry and the second call
   * registers nothing.
   */
  method AddTwice(modifier: Int32, key: Int32, hWnd: Int32) returns (first: Int32, second: Int32, size: nat)
    ensures first == Identity(modifier, key, hWnd)
    ensures second == NOT_FOUND
    ensures size == 1
  {
    var os := new User32();
    var manager := new HotKeyManager();
    first := manager.Add(modifier, key, hWnd, os);
    ghost var afterFirst := os.registered;
    second := manager.Add(modifier, key, hWnd, os);
    assert os.registered == afterFirst;
    size := |manager.hotKeys|;
  }

  /**
   * A message matches the binding added before Clear exactly when it is
   * WM_HOTKEY carrying that identity; after Clear no message matches.
   */
  method MatchAfterClear(modifier: Int32, key: Int32, hWnd: Int32, msg: Int32, wParam: Int32)
    returns (before: Int32, after: Int32)
    ensures before == (if msg == WM_HOTKEY_MSG_ID && wParam == Identity(modifier, key, hWnd) then wParam else NOT_FOUND)
    ensures after == NOT_FOUND
  {
    var os := new User32();
    var manager := new HotKeyManager();
    var _ := manager.Add(modifier, key, hWnd, os);
    before := manager.MatchHook(msg, wParam);
    manager.Clear();
    after := manager.MatchHook(msg, wParam);
  }
}
