/** Schema metadata: a map from qualified keys to byte strings, kept in key order. */
module SchemaMetadata {
  import opened Outcomes
  import opened Utf8

  datatype Entry = Entry(key: Bytes, value: Bytes)

  /** The map's entries in traversal order. */
  type Metadata = seq<Entry>

  // ---------- key order ----------

  /** Byte-wise lexicographic order, as the string comparison of the key type. */
  predicate Less(a: Bytes, b: Bytes)
    decreases |a|
  {
    |b| > 0 && (|a| == 0 || a[0] < b[0] || (a[0] == b[0] && Less(a[1..], b[1..])))
  }

  lemma {:induction false} LessTransitive(a: Bytes, b: Bytes, c: Bytes)
    requires Less(a, b) && Less(b, c)
    ensures Less(a, c)
    decreases |a|
  {
    if |a| > 0 && a[0] == b[0] == c[0] {
      LessTransitive(a[1..], b[1..], c[1..]);
    }
  }

  lemma {:induction false} LessTotal(a: Bytes, b: Bytes)
    ensures Less(a, b) || a == b || Less(b, a)
    ensures !(Less(a, b) && Less(b, a))
    ensures Less(a, b) ==> a != b
    decreases |a|
  {
    if |a| > 0 && |b| > 0 {
      LessTotal(a[1..], b[1..]);
      assert a == [a[0]] + a[1..] && b == [b[0]] + b[1..];
    }
  }

  /** Up to byte `n` the strings agree; there the first one ends or has the smaller byte. */
  predicate PrecedesAt(a: Bytes, b: Bytes, n: nat) {
    n <= |a| && n < |b| && a[..n] == b[..n] && (n == |a| || a[n] < b[n])
  }

  lemma {:induction false} FirstDifference(a: Bytes, b: Bytes) returns (n: nat)
    requires Less(a, b)
    ensures PrecedesAt(a, b, n)
    decreases |a|
  {
    n := 0;
    if |a| > 0 && a[0] == b[0] {
      var rest := FirstDifference(a[1..], b[1..]);
      n := rest + 1;
      assert a[..n] == [a[0]] + a[1..][..rest] && b[..n] == [b[0]] + b[1..][..rest];
    }
  }

  lemma {:induction false} DifferenceDecides(a: Bytes, b: Bytes, n: nat)
    requires PrecedesAt(a, b, n)
    ensures Less(a, b)
    decreases n
  {
    if n > 0 {
      assert a[0] == a[..n][0] == b[..n][0] == b[0];
      assert a[1..][..n - 1] == a[..n][1..] == b[..n][1..] == b[1..][..n - 1];
      DifferenceDecides(a[1..], b[1..], n - 1);
    }
  }

  /** Keys are ordered as unsigned byte strings, lexicographically. */
  lemma LessIsLexicographic(a: Bytes, b: Bytes)
    ensures Less(a, b) <==> exists n: nat :: PrecedesAt(a, b, n)
  {
    if Less(a, b) {
      var n := FirstDifference(a, b);
    }
    forall n: nat | PrecedesAt(a, b, n)
      ensures Less(a, b)
    {
      DifferenceDecides(a, b, n);
    }
  }

  predicate Sorted(m: Metadata) {
    forall i, j | 0 <= i < j < |m| :: Less(m[i].key, m[j].key)
  }

  predicate Contains(m: Metadata, key: Bytes) {
    exists i | 0 <= i < |m| :: m[i].key == key
  }

  /** The map itself. */
  function AsMap(m: Metadata): map<Bytes, Bytes>
    decreases |m|
  {
    if |m| == 0 then map[] else AsMap(m[..|m| - 1])[m[|m| - 1].key := m[|m| - 1].value]
  }

  lemma {:induction false} MapDomain(m: Metadata, key: Bytes)
    ensures key in AsMap(m) <==> Contains(m, key)
    decreases |m|
  {
    if |m| > 0 {
      var n := |m| - 1;
      MapDomain(m[..n], key);
      if Contains(m[..n], key) {
        var i :| 0 <= i < n && m[..n][i].key == key;
        assert m[i].key == key;
      }
      if Contains(m, key) && m[n].key != key {
        var i :| 0 <= i < |m| && m[i].key == key;
        assert m[..n][i].key == key;
      }
    }
  }

  lemma {:induction false} MapLookup(m: Metadata, i: nat)
    requires Sorted(m) && i < |m|
    ensures m[i].key in AsMap(m) && AsMap(m)[m[i].key] == m[i].value
    decreases |m|
  {
    var n := |m| - 1;
    if i < n {
      MapLookup(m[..n], i);
      LessTotal(m[i].key, m[n].key);
    }
  }

  lemma LastIsLargest(a: Metadata, key: Bytes)
    requires Sorted(a) && |a| > 0 && Contains(a, key)
    ensures key == a[|a| - 1].key || Less(key, a[|a| - 1].key)
  {
  }

  lemma LastKeysEqual(a: Metadata, b: Metadata)
    requires Sorted(a) && Sorted(b) && |a| > 0 && |b| > 0
    requires AsMap(a) == AsMap(b)
    ensures a[|a| - 1].key == b[|b| - 1].key
  {
    var x, y := a[|a| - 1].key, b[|b| - 1].key;
    MapDomain(a, x);
    MapDomain(b, x);
    MapDomain(a, y);
    MapDomain(b, y);
    LastIsLargest(a, y);
    LastIsLargest(b, x);
    LessTotal(x, y);
  }

  lemma RemoveAdded(front: map<Bytes, Bytes>, key: Bytes, value: Bytes)
    requires key !in front
    ensures front[key := value] - {key} == front
  {
  }

  lemma LastKeyIsNew(a: Metadata)
    requires Sorted(a) && |a| > 0
    ensures a[|a| - 1].key !in AsMap(a[..|a| - 1])
  {
    var n := |a| - 1;
    MapDomain(a[..n], a[n].key);
    forall i | 0 <= i < n
      ensures a[..n][i].key != a[n].key
    {
      LessTotal(a[i].key, a[n].key);
    }
  }

  lemma SortedFront(a: Metadata)
    requires Sorted(a) && |a| > 0
    ensures Sorted(a[..|a| - 1])
  {
  }

  lemma WithoutLast(a: Metadata)
    requires Sorted(a) && |a| > 0
    ensures Sorted(a[..|a| - 1])
    ensures AsMap(a[..|a| - 1]) == AsMap(a) - {a[|a| - 1].key}
  {
    var n := |a| - 1;
    SortedFront(a);
    LastKeyIsNew(a);
    RemoveAdded(AsMap(a[..n]), a[n].key, a[n].value);
    assert AsMap(a) == AsMap(a[..n])[a[n].key := a[n].value];
  }

  lemma LastEntriesEqual(a: Metadata, b: Metadata)
    requires Sorted(a) && Sorted(b) && |a| > 0 && |b| > 0
    requires AsMap(a) == AsMap(b)
    ensures a[|a| - 1] == b[|b| - 1]
  {
    LastKeysEqual(a, b);
    MapLookup(a, |a| - 1);
    MapLookup(b, |b| - 1);
  }

  /** The traversal is determined by the map: order of insertion leaves no trace. */
  lemma {:induction false} TraversalUnique(a: Metadata, b: Metadata)
    requires Sorted(a) && Sorted(b)
    requires AsMap(a) == AsMap(b)
    ensures a == b
    decreases |a|
  {
    if |a| == 0 {
      if |b| > 0 {
        MapLookup(b, 0);
      }
    } else if |b| == 0 {
      MapLookup(a, 0);
    } else {
      LastEntriesEqual(a, b);
      WithoutLast(a);
      WithoutLast(b);
      TraversalUnique(a[..|a| - 1], b[..|b| - 1]);
      assert a == a[..|a| - 1] + [a[|a| - 1]] && b == b[..|b| - 1] + [b[|b| - 1]];
    }
  }

  // ---------- insertion ----------

  /** Where a new key belongs. */
  function InsertAt(m: Metadata, e: Entry): Metadata
    decreases |m|
  {
    if |m| == 0 || Less(m[|m| - 1].key, e.key) then m + [e]
    else InsertAt(m[..|m| - 1], e) + [m[|m| - 1]]
  }

  lemma {:induction false} InsertMembers(m: Metadata, e: Entry, x: Entry)
    ensures x in InsertAt(m, e) <==> x in m || x == e
    decreases |m|
  {
    if |m| > 0 {
      assert m == m[..|m| - 1] + [m[|m| - 1]];
      InsertMembers(m[..|m| - 1], e, x);
    }
  }

  lemma AppendSorted(m: Metadata, e: Entry)
    requires Sorted(m) && (|m| == 0 || Less(m[|m| - 1].key, e.key))
    ensures Sorted(m + [e])
  {
    forall i, j | 0 <= i < j < |m + [e]|
      ensures Less((m + [e])[i].key, (m + [e])[j].key)
    {
      if j < |m| {
        assert Less(m[i].key, m[j].key);
      } else if i < |m| - 1 {
        LessTransitive(m[i].key, m[|m| - 1].key, e.key);
      }
    }
  }

  lemma AppendMap(m: Metadata, e: Entry)
    ensures AsMap(m + [e]) == AsMap(m)[e.key := e.value]
  {
    assert (m + [e])[..|m|] == m;
  }

  lemma SwapUpdates(m: map<Bytes, Bytes>, a: Entry, b: Entry)
    requires a.key != b.key
    ensures m[a.key := a.value][b.key := b.value] == m[b.key := b.value][a.key := a.value]
  {
  }

  lemma {:induction false} InsertKeepsOrder(m: Metadata, e: Entry)
    requires Sorted(m) && !Contains(m, e.key)
    ensures Sorted(InsertAt(m, e))
    ensures AsMap(InsertAt(m, e)) == AsMap(m)[e.key := e.value]
    decreases |m|
  {
    if |m| == 0 || Less(m[|m| - 1].key, e.key) {
      AppendSorted(m, e);
      AppendMap(m, e);
    } else {
      var n := |m| - 1;
      var front, last := m[..n], m[n];
      assert forall i | 0 <= i < |front| :: front[i].key == m[i].key;
      InsertKeepsOrder(front, e);
      LessTotal(last.key, e.key);
      var grown := InsertAt(front, e);
      if |grown| > 0 {
        InsertMembers(front, e, grown[|grown| - 1]);
      }
      AppendSorted(grown, last);
      AppendMap(grown, last);
      SwapUpdates(AsMap(front), e, last);
    }
  }

  // ---------- keys ----------

  const SLASH: Byte := 0x2f

  /** ASCII shibori. and shibori.engine/ */
  const RESERVED_PREFIX: Bytes := [0x73, 0x68, 0x69, 0x62, 0x6f, 0x72, 0x69, 0x2e]
  const ENGINE_PREFIX: Bytes := RESERVED_PREFIX + [0x65, 0x6e, 0x67, 0x69, 0x6e, 0x65, 0x2f]

  /** A nonempty namespace without a slash, a slash, and a nonempty name. */
  ghost predicate IsQualified(key: Bytes) {
    exists space: Bytes, name: Bytes :: SplitsAt(key, space, name)
  }

  ghost predicate ValidKey(key: Bytes) {
    IsUtf8(key) && IsQualified(key) && (RESERVED_PREFIX <= key ==> ENGINE_PREFIX <= key)
  }

  /** The index of the first slash, or the length when there is none. */
  function FindSlash(key: Bytes, from: nat): (i: nat)
    requires from <= |key|
    ensures from <= i <= |key|
    ensures forall j | from <= j < i :: key[j] != SLASH
    ensures i < |key| ==> key[i] == SLASH
    decreases |key| - from
  {
    if from == |key| || key[from] == SLASH then from else FindSlash(key, from + 1)
  }

  predicate SplitsAt(key: Bytes, space: Bytes, name: Bytes) {
    |space| > 0 && SLASH !in space && |name| > 0 && key == space + [SLASH] + name
  }

  lemma SlashAfterNamespace(key: Bytes, space: Bytes, name: Bytes)
    requires SplitsAt(key, space, name)
    ensures FindSlash(key, 0) == |space|
  {
    var i := FindSlash(key, 0);
    assert key[|space|] == SLASH;
    forall j | 0 <= j < |space|
      ensures key[j] != SLASH
    {
      assert key[j] == space[j] && space[j] in space;
    }
  }

  lemma QualifiedBySlash(key: Bytes)
    ensures IsQualified(key) <==> 0 < FindSlash(key, 0) && FindSlash(key, 0) + 1 < |key|
  {
    var i := FindSlash(key, 0);
    if 0 < i && i + 1 < |key| {
      assert SplitsAt(key, key[..i], key[i + 1..]);
    }
    if IsQualified(key) {
      var space: Bytes, name: Bytes :| SplitsAt(key, space, name);
      SlashAfterNamespace(key, space, name);
    }
  }

  lemma KeyTexts()
    ensures [SLASH] == Ascii("/")
    ensures RESERVED_PREFIX == Ascii("shibori.")
    ensures ENGINE_PREFIX == Ascii("shibori.engine/")
  {
    SlashText();
    ReservedText();
    EngineText();
    AsciiAppend("shibori.", "engine/");
    assert "shibori." + "engine/" == "shibori.engine/";
  }

  lemma SlashText()
    ensures [SLASH] == Ascii("/")
  {
  }

  lemma ReservedText()
    ensures RESERVED_PREFIX == Ascii("shibori.")
  {
  }

  lemma EngineFront()
    ensures [0x65, 0x6e, 0x67] == Ascii("eng")
  {
  }

  lemma EngineBack()
    ensures [0x69, 0x6e, 0x65, 0x2f] == Ascii("ine/")
  {
  }

  lemma EngineText()
    ensures [0x65, 0x6e, 0x67, 0x69, 0x6e, 0x65, 0x2f] == Ascii("engine/")
  {
    EngineFront();
    EngineBack();
    AsciiAppend("eng", "ine/");
    assert "eng" + "ine/" == "engine/";
  }

  lemma AsciiAppend(a: string, b: string)
    requires forall i | 0 <= i < |a| :: a[i] < 128 as char
    requires forall i | 0 <= i < |b| :: b[i] < 128 as char
    ensures Ascii(a + b) == Ascii(a) + Ascii(b)
  {
  }

  /** Which keys are valid, in text: only shibori.engine/ may use the reserved namespace shibori. */
  lemma KeyRules(key: Bytes)
    ensures ValidKey(key) <==>
            && IsUtf8(key)
            && (exists space: Bytes, name: Bytes ::
                  |space| > 0 && Ascii("/")[0] !in space && |name| > 0 && key == space + Ascii("/") + name)
            && (Ascii("shibori.") <= key ==> Ascii("shibori.engine/") <= key)
  {
    KeyTexts();
    if IsQualified(key) {
      var space: Bytes, name: Bytes :| SplitsAt(key, space, name);
    }
    if space: Bytes, name: Bytes :|
      |space| > 0 && Ascii("/")[0] !in space && |name| > 0 && key == space + Ascii("/") + name
    {
      assert SplitsAt(key, space, name);
    }
  }

  method ValidateKey(key: Bytes) returns (r: Status)
    ensures r == if ValidKey(key) then Ok(Unit) else Err(InvalidSchema)
  {
    var slash := FindSlash(key, 0);
    QualifiedBySlash(key);
    var utf8 := ValidUtf8(key);
    if |key| == 0 || !utf8 || slash == |key| || slash == 0 || slash + 1 == |key| {
      return Err(InvalidSchema);
    }
    if RESERVED_PREFIX <= key && !(ENGINE_PREFIX <= key) {
      return Err(InvalidSchema);
    }
    return Ok(Unit);
  }

  /** Adds an entry, or refuses a bad or repeated key and leaves the map as it was. */
  method AddMetadataValue(m: Metadata, key: Bytes, value: Bytes) returns (r: Status, n: Metadata)
    requires Sorted(m)
    ensures r == if ValidKey(key) && key !in AsMap(m) then Ok(Unit) else Err(InvalidSchema)
    ensures Sorted(n)
    ensures AsMap(n) == if r.Ok? then AsMap(m)[key := value] else AsMap(m)
    ensures r.Ok? ==> n == InsertAt(m, Entry(key, value))
    ensures r.Err? ==> n == m
  {
    r := ValidateKey(key);
    n := m;
    if r.Err? {
      return;
    }
    MapDomain(m, key);
    if Contains(m, key) {
      r := Err(InvalidSchema);
      return;
    }
    InsertKeepsOrder(m, Entry(key, value));
    n := InsertAt(m, Entry(key, value));
  }
}
