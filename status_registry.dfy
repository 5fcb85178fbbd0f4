/**
  The status registries and the status classifier.

  A registry is a JavaScript object literal mapping a status label to the text
  shown in the table; it is modelled as the ordered list of its entries, since
  the renderer walks the keys in insertion order. There are two registries:
  `STATUS_LIST` in status.js (read by fetch-issues.js) and `display` in
  render-rfc-table.js. They have the same keys in the same order and differ
  only in the text shown for `status/stale`.
 */
module StatusRegistry {
  import opened Strings

  /** The entries of a status registry, in insertion order: (label name, display text). */
  type Registry = seq<(string, string)>

  /** The sentinel status; it is itself a registry key. */
  const UnknownStatus: string := "status/unknown"

  /** `STATUS_LIST` of status.js. */
  const StatusList: Registry := [
    (UnknownStatus, "❓unknown"),
    ("status/implementing", "👷 implementing"),
    ("status/planning", "📆 planning"),
    ("status/approved", "👍 approved"),
    ("status/final-comment-period", "⏰ final comments"),
    ("status/api-approved", "📐 API approved"),
    ("status/review", "✍️ review"),
    ("status/proposed", "💡 proposed"),
    ("status/done", "✅ done"),
    ("status/stale", "🤷 stale"),
    ("status/rejected", "👎 rejected")
  ]

  /** `display` of render-rfc-table.js. */
  const Display: Registry := [
    (UnknownStatus, "❓unknown"),
    ("status/implementing", "👷 implementing"),
    ("status/planning", "📆 planning"),
    ("status/approved", "👍 approved"),
    ("status/final-comment-period", "⏰ final comments"),
    ("status/api-approved", "📐 API approved"),
    ("status/review", "✍️ review"),
    ("status/proposed", "💡 proposed"),
    ("status/done", "✅ done"),
    ("status/stale", "🤷‍♂️ stale"),
    ("status/rejected", "👎 rejected")
  ]

  /** `Object.keys(reg)` */
  function Keys(reg: Registry): (ks: seq<string>)
    ensures |ks| == |reg|
    ensures forall i :: 0 <= i < |reg| ==> ks[i] == reg[i].0
  {
    seq(|reg|, i requires 0 <= i < |reg| => reg[i].0)
  }

  predicate Distinct<T(==)>(s: seq<T>) {
    forall i, j :: 0 <= i < j < |s| ==> s[i] != s[j]
  }

  /** Appending a new element keeps a sequence free of repeats. */
  lemma DistinctSnoc<T>(s: seq<T>, x: T)
    requires Distinct(s) && x !in s
    ensures Distinct(s + [x])
  {
    forall i, j | 0 <= i < j < |s + [x]| ensures (s + [x])[i] != (s + [x])[j] {
      if j == |s| {
        assert (s + [x])[i] == s[i] && s[i] in s;
      } else {
        assert (s + [x])[i] == s[i] && (s + [x])[j] == s[j];
      }
    }
  }

  /**
    `reg[key]` as a table cell: the text of the first entry for `key`; a key
    that is absent reads `undefined`, which `Array.prototype.join` writes as
    the empty string.
   */
  function DisplayOf(reg: Registry, key: string): (text: string)
    ensures key in Keys(reg) ==> (key, text) in reg
    ensures key !in Keys(reg) ==> text == ""
  {
    if reg == [] then ""
    else if reg[0].0 == key then reg[0].1
    else
      assert Keys(reg) == [reg[0].0] + Keys(reg[1..]);
      DisplayOf(reg[1..], key)
  }

  /** The sentinel is a key of both registries. */
  lemma UnknownIsRegistered()
    ensures UnknownStatus in Keys(StatusList) && UnknownStatus in Keys(Display)
  {
    assert Keys(StatusList)[0] == UnknownStatus;
    assert Keys(Display)[0] == UnknownStatus;
  }

  /**
    Both registries have the same keys in the same order, and the same
    entries except the stale one, whose text differs.
   */
  lemma RegistriesAgreeOnKeys()
    ensures Keys(StatusList) == Keys(Display)
    ensures forall i :: 0 <= i < |StatusList| && i != 9 ==> StatusList[i] == Display[i]
    ensures StatusList[9].0 == Display[9].0 == "status/stale" && StatusList[9].1 != Display[9].1
  {
  }

  /** The registry has eleven distinct keys. */
  lemma RegistryKeysDistinct()
    ensures |Keys(StatusList)| == 11 && Distinct(Keys(StatusList))
  {
  }

  /** Every registry key is a `status/` label. */
  lemma RegistryKeysPrefixed()
    ensures forall k :: k in Keys(StatusList) ==> StartsWith(k, "status/")
  {
  }

  /** What the classifier and the renderer rely on: distinct keys, the sentinel among them. */
  predicate ValidRegistry(reg: Registry) {
    Distinct(Keys(reg)) && UnknownStatus in Keys(reg)
  }

  lemma DisplayIsValid()
    ensures ValidRegistry(Display)
  {
    RegistriesAgreeOnKeys();
    RegistryKeysDistinct();
    UnknownIsRegistered();
  }

  lemma StatusListIsValid()
    ensures ValidRegistry(StatusList)
  {
    RegistryKeysDistinct();
    UnknownIsRegistered();
  }

  /**
    The label names of an issue that are registry keys, in label order
    (the `result` array that `determineStatus` accumulates).
   */
  function Matches(keys: seq<string>, labelNames: seq<string>): (ms: seq<string>)
    ensures |ms| <= |labelNames|
    ensures forall x :: x in ms <==> x in labelNames && x in keys
  {
    if labelNames == [] then []
    else
      var last := labelNames[|labelNames| - 1];
      var init := labelNames[..|labelNames| - 1];
      assert labelNames == init + [last];
      Matches(keys, init) + (if last in keys then [last] else [])
  }

  /** What `determineStatus` returns: the single matching label, or the sentinel. */
  function StatusOf(keys: seq<string>, labelNames: seq<string>): string
  {
    var ms := Matches(keys, labelNames);
    if |ms| != 1 then UnknownStatus else ms[0]
  }

  /** `determineStatus(labels)`: collects the label names that are registry keys, then picks. */
  method DetermineStatus(keys: seq<string>, labelNames: seq<string>) returns (status: string)
    ensures status == StatusOf(keys, labelNames)
  {
    var result: seq<string> := [];
    var i := 0;
    while i < |labelNames|
      invariant 0 <= i <= |labelNames|
      invariant result == Matches(keys, labelNames[..i])
    {
      assert labelNames[..i + 1][..i] == labelNames[..i];
      if labelNames[i] in keys {
        result := result + [labelNames[i]];
      }
      i := i + 1;
    }
    assert labelNames[..i] == labelNames;
    if |result| != 1 {
      status := UnknownStatus;
    } else {
      status := result[0];
    }
  }

  /** With the sentinel registered, the classifier always answers with a registry key. */
  lemma StatusOfIsKey(keys: seq<string>, labelNames: seq<string>)
    requires UnknownStatus in keys
    ensures StatusOf(keys, labelNames) in keys
  {
    var ms := Matches(keys, labelNames);
    if |ms| == 1 {
      assert ms[0] in ms;
    }
  }

  /** No label is a key: the sentinel. */
  lemma {:induction false} NoMatchIsUnknown(keys: seq<string>, labelNames: seq<string>)
    requires forall i :: 0 <= i < |labelNames| ==> labelNames[i] !in keys
    ensures Matches(keys, labelNames) == []
    ensures StatusOf(keys, labelNames) == UnknownStatus
  {
    if labelNames != [] {
      NoMatchIsUnknown(keys, labelNames[..|labelNames| - 1]);
    }
  }

  /** Exactly one label position holds a key: that label is the status. */
  lemma {:induction false} SingleMatchIsStatus(keys: seq<string>, labelNames: seq<string>, i: nat)
    requires i < |labelNames| && labelNames[i] in keys
    requires forall j :: 0 <= j < |labelNames| && j != i ==> labelNames[j] !in keys
    ensures Matches(keys, labelNames) == [labelNames[i]]
    ensures StatusOf(keys, labelNames) == labelNames[i]
  {
    var n := |labelNames|;
    var init := labelNames[..n - 1];
    if i == n - 1 {
      NoMatchIsUnknown(keys, init);
    } else {
      SingleMatchIsStatus(keys, init, i);
    }
  }

  /**
    Two label positions hold keys (two different status labels, or the same
    one repeated): the sentinel.
   */
  lemma {:induction false} AmbiguousIsUnknown(keys: seq<string>, labelNames: seq<string>, i: nat, j: nat)
    requires i < j < |labelNames|
    requires labelNames[i] in keys && labelNames[j] in keys
    ensures |Matches(keys, labelNames)| >= 2
    ensures StatusOf(keys, labelNames) == UnknownStatus
  {
    var n := |labelNames|;
    var init := labelNames[..n - 1];
    if j == n - 1 {
      assert init[i] == labelNames[i];
      assert labelNames[i] in Matches(keys, init);
    } else {
      AmbiguousIsUnknown(keys, init, i, j);
    }
  }
}
