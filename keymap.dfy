/**
 * The keymap shaping of KeyViz (KeyViz/MainWindow.xaml.cs): the number of
 * keys per physical row of a keyboard, the width of each key, the label
 * shown on a key, and the splitting of a layer's flat list of key names
 * into rows.
 */
module Keymap {

  /** The result of code that either runs to its end or throws IndexOutOfRangeException. */
  datatype Outcome<T> = Ok(value: T) | IndexOutOfRange

  /** The only keyboard the tool knows. */
  const TADA68: string := "tada68"

  // ---------------------------------------------------------------------
  // Keys per row
  // ---------------------------------------------------------------------

  /**
   * The number of keys a row closes at: the loop closes a row once it holds
   * at least this many keys, and a row always holds the key just added, so
   * a count below one closes the row after one key.
   */
  function RowWidth(n: int): (w: nat)
    ensures w >= 1 && w >= n
    ensures n >= 1 ==> w == n
  {
    if n < 1 then 1 else n
  }

  /** The number of keys a layer fills with the given row counts. */
  function TotalWidth(keysPerRow: seq<int>): nat
  {
    if keysPerRow == [] then 0
    else TotalWidth(keysPerRow[..|keysPerRow| - 1]) + RowWidth(keysPerRow[|keysPerRow| - 1])
  }

  /** Keys per row of a keyboard: the tada68 has 68 keys in five rows; others have no rows. */
  function KeysPerRow(keyboard: string): (r: seq<int>)
    ensures keyboard == TADA68 <==> |r| == 5
    ensures keyboard != TADA68 ==> r == []
    ensures forall i | 0 <= i < |r| :: r[i] >= 1
    ensures TotalWidth(r) == if keyboard == TADA68 then 68 else 0
  {
    if keyboard == TADA68 then
      var r := [15, 15, 14, 14, 10];
      TotalWidthStep(r, 0);
      TotalWidthStep(r, 1);
      TotalWidthStep(r, 2);
      TotalWidthStep(r, 3);
      TotalWidthStep(r, 4);
      assert r[..5] == r;
      r
    else []
  }

  lemma {:induction false} TotalWidthStep(keysPerRow: seq<int>, k: nat)
    requires k < |keysPerRow|
    ensures TotalWidth(keysPerRow[..k + 1]) == TotalWidth(keysPerRow[..k]) + RowWidth(keysPerRow[k])
  {
    assert keysPerRow[..k + 1][..k] == keysPerRow[..k];
  }

  /** More rows never hold fewer keys. */
  lemma {:induction false} TotalWidthMonotone(keysPerRow: seq<int>, j: nat, k: nat)
    requires j <= k <= |keysPerRow|
    ensures TotalWidth(keysPerRow[..j]) <= TotalWidth(keysPerRow[..k])
  {
    if j < k {
      TotalWidthMonotone(keysPerRow, j, k - 1);
      TotalWidthStep(keysPerRow, k - 1);
    }
  }

  // ---------------------------------------------------------------------
  // Splitting a layer into rows
  // ---------------------------------------------------------------------

  /** The rows joined back into one list of keys. */
  function Flatten(rows: seq<seq<string>>): seq<string>
  {
    if rows == [] then [] else Flatten(rows[..|rows| - 1]) + rows[|rows| - 1]
  }

  /** How many keys the next row would take, once `done` rows are complete. */
  function NextWidth(keysPerRow: seq<int>, done: nat): nat
  {
    if done < |keysPerRow| then RowWidth(keysPerRow[done]) else 1
  }

  /**
   * rows is a splitting of keys: each completed row r holds exactly the
   * number of keys row r closes at, the rows joined are a prefix of keys,
   * and what is left over is too short to close the next row (nothing is
   * left over when every row is complete).
   */
  ghost predicate IsSplitOf(keysPerRow: seq<int>, keys: seq<string>, rows: seq<seq<string>>)
  {
    && |rows| <= |keysPerRow|
    && (forall r | 0 <= r < |rows| :: |rows[r]| == RowWidth(keysPerRow[r]))
    && Flatten(rows) <= keys
    && |keys| - |Flatten(rows)| < NextWidth(keysPerRow, |rows|)
  }

  /**
   * The state of the row loop after reading the keys in done: the completed
   * rows each hold their row's count, and followed by the open row they
   * give back done.
   */
  ghost predicate SplitSoFar(keysPerRow: seq<int>, done: seq<string>, keys: seq<seq<string>>, row: seq<string>)
  {
    && |keys| <= |keysPerRow|
    && (forall r | 0 <= r < |keys| :: |keys[r]| == RowWidth(keysPerRow[r]))
    && Flatten(keys) + row == done
    && |Flatten(keys)| == TotalWidth(keysPerRow[..|keys|])
    && |row| < NextWidth(keysPerRow, |keys|)
  }

  /** Reading one more key while a row is open either extends it or closes it. */
  lemma SplitStep(keysPerRow: seq<int>, done: seq<string>, keys: seq<seq<string>>, row: seq<string>, key: string)
    requires SplitSoFar(keysPerRow, done, keys, row) && |keys| < |keysPerRow|
    ensures |row + [key]| >= keysPerRow[|keys|] ==>
      SplitSoFar(keysPerRow, done + [key], keys + [row + [key]], [])
    ensures |row + [key]| < keysPerRow[|keys|] ==>
      SplitSoFar(keysPerRow, done + [key], keys, row + [key])
  {
    var row' := row + [key];
    if |row'| >= keysPerRow[|keys|] {
      TotalWidthStep(keysPerRow, |keys|);
      assert Flatten(keys + [row']) == Flatten(keys) + row';
    }
  }

  /** Once every row is complete, one more key is more than the rows hold. */
  lemma SplitOverflow(keysPerRow: seq<int>, done: seq<string>, keys: seq<seq<string>>, row: seq<string>)
    requires SplitSoFar(keysPerRow, done, keys, row) && |keys| >= |keysPerRow|
    ensures |done| + 1 > TotalWidth(keysPerRow)
  {
    assert keysPerRow[..|keys|] == keysPerRow;
  }

  /** At the end of the layer, the completed rows are its splitting. */
  lemma SplitComplete(keysPerRow: seq<int>, layer: seq<string>, keys: seq<seq<string>>, row: seq<string>)
    requires SplitSoFar(keysPerRow, layer, keys, row)
    ensures |layer| <= TotalWidth(keysPerRow) && IsSplitOf(keysPerRow, layer, keys)
  {
    if |keys| < |keysPerRow| {
      TotalWidthStep(keysPerRow, |keys|);
      TotalWidthMonotone(keysPerRow, |keys| + 1, |keysPerRow|);
    }
    assert keysPerRow[..|keysPerRow|] == keysPerRow;
  }

  /** The row loop of PopulateKeymap, for one layer. */
  method SplitLayer(keysPerRow: seq<int>, layer: seq<string>) returns (res: Outcome<seq<seq<string>>>)
    ensures res.Ok? <==> |layer| <= TotalWidth(keysPerRow)
    ensures res.Ok? ==> IsSplitOf(keysPerRow, layer, res.value)
  {
    var keys: seq<seq<string>> := [];
    var row: seq<string> := [];
    var key := 0;
    while key < |layer|
      invariant 0 <= key <= |layer|
      invariant SplitSoFar(keysPerRow, layer[..key], keys, row)
    {
      assert layer[..key + 1] == layer[..key] + [layer[key]];
      if |keys| < |keysPerRow| {
        SplitStep(keysPerRow, layer[..key], keys, row, layer[key]);
      }
      row := row + [layer[key]];
      if |keys| >= |keysPerRow| {
        // keysPerRow[keys.Count] is past the end of the array
        SplitOverflow(keysPerRow, layer[..key], keys, row[..|row| - 1]);
        return IndexOutOfRange;
      }
      if |row| >= keysPerRow[|keys|] {
        keys := keys + [row];
        row := [];
      }
      key := key + 1;
    }
    assert layer[..key] == layer;
    SplitComplete(keysPerRow, layer, keys, row);
    res := Ok(keys);
  }

  /** Rows that each hold their row's count of keys hold the sum of those counts. */
  lemma {:induction false} FlattenLength(keysPerRow: seq<int>, rows: seq<seq<string>>)
    requires |rows| <= |keysPerRow|
    requires forall r | 0 <= r < |rows| :: |rows[r]| == RowWidth(keysPerRow[r])
    ensures |Flatten(rows)| == TotalWidth(keysPerRow[..|rows|])
  {
    if rows != [] {
      var n := |rows| - 1;
      FlattenLength(keysPerRow, rows[..n]);
      TotalWidthStep(keysPerRow, n);
    }
  }

  /** Row lists with the same row lengths and the same joined keys are equal. */
  lemma {:induction false} FlattenInjective(a: seq<seq<string>>, b: seq<seq<string>>)
    requires |a| == |b|
    requires forall r | 0 <= r < |a| :: |a[r]| == |b[r]|
    requires Flatten(a) == Flatten(b)
    ensures a == b
  {
    if a != [] {
      var n := |a| - 1;
      var fa, fb := Flatten(a[..n]), Flatten(b[..n]);
      assert fa + a[n] == fb + b[n];
      assert |fa| == |fb|;
      assert fa == (fa + a[n])[..|fa|] == (fb + b[n])[..|fb|] == fb;
      assert a[n] == (fa + a[n])[|fa|..] == (fb + b[n])[|fb|..] == b[n];
      FlattenInjective(a[..n], b[..n]);
      assert a == a[..n] + [a[n]] && b == b[..n] + [b[n]];
    }
  }

  /** A layer has at most one splitting: IsSplitOf determines the rows. */
  lemma SplitUnique(keysPerRow: seq<int>, keys: seq<string>, a: seq<seq<string>>, b: seq<seq<string>>)
    requires IsSplitOf(keysPerRow, keys, a) && IsSplitOf(keysPerRow, keys, b)
    ensures a == b
  {
    FlattenLength(keysPerRow, a);
    FlattenLength(keysPerRow, b);
    if |a| < |b| {
      TotalWidthStep(keysPerRow, |a|);
      TotalWidthMonotone(keysPerRow, |a| + 1, |b|);
      assert false;
    } else if |b| < |a| {
      TotalWidthStep(keysPerRow, |b|);
      TotalWidthMonotone(keysPerRow, |b| + 1, |a|);
      assert false;
    }
    assert Flatten(a) == keys[..|Flatten(a)|] == Flatten(b);
    FlattenInjective(a, b);
  }

  /**
   * A layer with exactly as many keys as the rows take is split into every
   * row, and the rows together are the whole layer.
   */
  lemma FullLayerFillsEveryRow(keysPerRow: seq<int>, keys: seq<string>, rows: seq<seq<string>>)
    requires IsSplitOf(keysPerRow, keys, rows)
    requires |keys| == TotalWidth(keysPerRow)
    ensures |rows| == |keysPerRow|
    ensures Flatten(rows) == keys
  {
    FlattenLength(keysPerRow, rows);
    assert keysPerRow[..|keysPerRow|] == keysPerRow;
    if |rows| < |keysPerRow| {
      TotalWidthStep(keysPerRow, |rows|);
      TotalWidthMonotone(keysPerRow, |rows| + 1, |keysPerRow|);
      assert false;
    }
    assert |Flatten(rows)| == |keys|;
  }

  // ---------------------------------------------------------------------
  // Key widths
  // ---------------------------------------------------------------------

  /** The tada68 keys wider than one unit, and their widths in key units. */
  const TADA68_WIDTHS: map<string, real> := map[
    "KC_SPC" := 6.25,
    "KC_ENT" := 2.25,
    "KC_LSFT" := 2.25,
    "KC_BSPC" := 2.0,
    "KC_CAPS" := 1.75,
    "KC_RSFT" := 1.75,
    "KC_TAB" := 1.5,
    "KC_BSLS" := 1.5,
    "KC_LCTL" := 1.25,
    "KC_LGUI" := 1.25,
    "KC_LALT" := 1.25
  ]

  /** The width of a tada68 key: its table width, or one unit when not in the table. */
  function KeyWidth(name: string): (w: real)
    ensures name in TADA68_WIDTHS ==> w == TADA68_WIDTHS[name]
    ensures name !in TADA68_WIDTHS ==> w == 1.0
    ensures 1.0 <= w <= 6.25
    ensures w == 1.0 <==> name !in TADA68_WIDTHS
  {
    if name in TADA68_WIDTHS then TADA68_WIDTHS[name] else 1.0
  }

  /**
   * The width of every key of a layer, row by row, for the tada68; no rows
   * for any other keyboard.
   */
  method GetKeySizes(keyboard: string, toplayer: seq<seq<string>>) returns (total: array<array<real>>)
    ensures fresh(total) && forall r | 0 <= r < total.Length :: fresh(total[r])
    ensures keyboard != TADA68 ==> total.Length == 0
    ensures keyboard == TADA68 ==> total.Length == |toplayer|
    ensures keyboard == TADA68 ==>
      forall r | 0 <= r < |toplayer| ::
        && total[r].Length == |toplayer[r]|
        && forall i | 0 <= i < |toplayer[r]| :: total[r][i] == KeyWidth(toplayer[r][i])
  {
    if keyboard == TADA68 {
      var none := new real[0];
      total := new array<real>[|toplayer|](_ => none);
      for r := 0 to |toplayer|
        invariant forall s | 0 <= s < total.Length :: fresh(total[s])
        invariant forall s | 0 <= s < r ::
          && total[s].Length == |toplayer[s]|
          && forall i | 0 <= i < |toplayer[s]| :: total[s][i] == KeyWidth(toplayer[s][i])
      {
        var row := toplayer[r];
        total[r] := new real[|row|];
        for i := 0 to |row|
          modifies total[r]
          invariant forall j | 0 <= j < i :: total[r][j] == KeyWidth(row[j])
        {
          var key := row[i];
          total[r][i] := KeyWidth(key);
        }
      }
      return total;
    }
    total := new array<real>[0];
  }

  /**
   * Row r of layer can be drawn with the key sizes computed from top: the
   * row is empty, or top has a row r with at least as many keys.
   */
  predicate RowSizedBy(layer: seq<seq<string>>, top: seq<seq<string>>, keyboard: string, r: nat)
    requires r < |layer|
  {
    |layer[r]| == 0 || (keyboard == TADA68 && r < |top| && |layer[r]| <= |top[r]|)
  }

  /** Every row of layer can be drawn with the key sizes computed from top. */
  predicate SizedBy(layer: seq<seq<string>>, top: seq<seq<string>>, keyboard: string)
  {
    forall r | 0 <= r < |layer| :: RowSizedBy(layer, top, keyboard, r)
  }

  /**
   * Two layers split with the same keyboard's row counts: the key sizes of
   * the first fit the second exactly when the second has no more rows.
   */
  lemma SplitSizedByIff(keyboard: string, keys0: seq<string>, top: seq<seq<string>>, keys: seq<string>, layer: seq<seq<string>>)
    requires IsSplitOf(KeysPerRow(keyboard), keys0, top)
    requires IsSplitOf(KeysPerRow(keyboard), keys, layer)
    ensures SizedBy(layer, top, keyboard) <==> |layer| <= |top|
  {
    if |layer| > |top| {
      assert !RowSizedBy(layer, top, keyboard, |top|);
    }
  }

  // ---------------------------------------------------------------------
  // Key labels
  // ---------------------------------------------------------------------

  /** pat occurs in s at index i. */
  predicate OccursAt(pat: string, s: string, i: nat)
  {
    i + |pat| <= |s| && s[i..i + |pat|] == pat
  }

  /** pat occurs somewhere in s. */
  predicate OccursIn(pat: string, s: string)
  {
    exists i: nat | i <= |s| :: OccursAt(pat, s, i)
  }

  /**
   * s with every occurrence of pat removed, scanning left to right without
   * looking again at what a removal brings together, as String.Replace(pat, "")
   * does.
   */
  function RemoveAll(s: string, pat: string): (r: string)
    requires pat != []
    ensures |r| <= |s|
    decreases |s|
  {
    if |pat| <= |s| && s[..|pat|] == pat then RemoveAll(s[|pat|..], pat)
    else if s == [] then []
    else [s[0]] + RemoveAll(s[1..], pat)
  }

  lemma {:induction false} RemoveAllWithout(s: string, pat: string)
    requires pat != [] && !OccursIn(pat, s)
    ensures RemoveAll(s, pat) == s
    decreases |s|
  {
    if s != [] {
      if |pat| <= |s| && s[..|pat|] == pat {
        assert OccursAt(pat, s, 0);
        assert false;
      }
      if OccursIn(pat, s[1..]) {
        var i: nat :| i <= |s[1..]| && OccursAt(pat, s[1..], i);
        assert s[1..][i..i + |pat|] == s[i + 1..i + 1 + |pat|];
        assert OccursAt(pat, s, i + 1);
        assert false;
      }
      RemoveAllWithout(s[1..], pat);
    }
  }

  lemma {:induction false} RemoveAllWith(s: string, pat: string)
    requires pat != [] && OccursIn(pat, s)
    ensures |RemoveAll(s, pat)| < |s|
    decreases |s|
  {
    if !(|pat| <= |s| && s[..|pat|] == pat) {
      var i: nat :| i <= |s| && OccursAt(pat, s, i);
      if i == 0 {
        assert false;
      }
      assert s[1..][i - 1..i - 1 + |pat|] == s[i..i + |pat|];
      assert OccursAt(pat, s[1..], i - 1);
      RemoveAllWith(s[1..], pat);
    }
  }

  /**
   * The first occurrence is removed and the scan resumes right after it:
   * when no occurrence starts inside x, removal from x + pat + y keeps x
   * and continues on y.
   */
  lemma {:induction false} RemoveAllLeftmost(x: string, pat: string, y: string)
    requires pat != []
    requires forall i: nat | i < |x| :: !OccursAt(pat, x + pat + y, i)
    ensures RemoveAll(x + pat + y, pat) == x + RemoveAll(y, pat)
    decreases |x|
  {
    var s := x + pat + y;
    if x == [] {
      assert s == pat + y && s[..|pat|] == pat && s[|pat|..] == y;
    } else {
      assert !OccursAt(pat, s, 0);
      assert s[1..] == x[1..] + pat + y;
      forall i: nat | i < |x[1..]|
        ensures !OccursAt(pat, x[1..] + pat + y, i)
      {
        assert !OccursAt(pat, s, i + 1);
        assert s[i + 1..i + 1 + |pat|] == (x[1..] + pat + y)[i..i + |pat|];
      }
      RemoveAllLeftmost(x[1..], pat, y);
      assert x == [x[0]] + x[1..];
    }
  }

  /** Removal changes a string exactly when the pattern occurs in it. */
  lemma RemoveAllUnchangedIff(s: string, pat: string)
    requires pat != []
    ensures RemoveAll(s, pat) == s <==> !OccursIn(pat, s)
  {
    if OccursIn(pat, s) {
      RemoveAllWith(s, pat);
    } else {
      RemoveAllWithout(s, pat);
    }
  }

  /**
   * The label of a key: empty for the transparent key KC_TRNS, otherwise
   * the name with every "KC_" removed, so a name without "KC_" is its own
   * label.
   */
  function CleanKeyName(keyname: string): (clean: string)
    ensures keyname == "KC_TRNS" ==> clean == ""
    ensures keyname != "KC_TRNS" ==> (clean == keyname <==> !OccursIn("KC_", keyname))
    ensures |clean| <= |keyname|
  {
    if keyname == "KC_TRNS" then ""
    else
      RemoveAllUnchangedIff(keyname, "KC_");
      RemoveAll(keyname, "KC_")
  }

  /**
   * The label of a QMK keycode "KC_" + name is the name itself, when the
   * name holds no "KC_" and the keycode is not KC_TRNS.
   */
  lemma CleanKeyNameStripsPrefix(name: string)
    requires !OccursIn("KC_", name) && name != "TRNS"
    ensures CleanKeyName("KC_" + name) == name
  {
    var s := "KC_" + name;
    assert s[..3] == "KC_" && s[3..] == name;
    assert "KC_TRNS"[3..] == "TRNS";
    RemoveAllWithout(name, "KC_");
  }

  /** Every occurrence is removed, not only the first: "KC_AKC_B" cleans to "AB". */
  lemma CleanKeyNameRemovesEveryOccurrence()
    ensures CleanKeyName("KC_AKC_B") == "AB"
  {
    var pat := "KC_";
    assert "KC_AKC_B" == [] + pat + "AKC_B";
    RemoveAllLeftmost([], pat, "AKC_B");
    assert "AKC_B" == "A" + pat + "B";
    assert !OccursAt(pat, "AKC_B", 0);
    RemoveAllLeftmost("A", pat, "B");
    assert !OccursAt(pat, "B", 0);
    RemoveAllWithout("B", pat);
  }

  /** Removal does not rescan: "KKC_C_" loses its inner "KC_" and leaves a new one. */
  lemma CleanKeyNameIsSinglePass()
    ensures CleanKeyName("KKC_C_") == "KC_"
  {
    var pat := "KC_";
    assert "KKC_C_"[..3][1] != pat[1];
    assert "KKC_C_"[1..] == "KC_C_" && "KC_C_"[..3] == pat && "KC_C_"[3..] == "C_";
    assert "C_"[1..] == "_" && "_"[1..] == [];
    calc {
      RemoveAll("KKC_C_", pat);
      ['K'] + RemoveAll("KC_C_", pat);
      ['K'] + RemoveAll("C_", pat);
      ['K'] + (['C'] + RemoveAll("_", pat));
      ['K'] + (['C'] + (['_'] + RemoveAll([], pat)));
      "KC_";
    }
  }
}
