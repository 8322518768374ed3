// The key under which password entries are grouped: name::website::username.
module PasswordKey {

  const SEPARATOR := "::"

  datatype Labels = Labels(name: string, website: string, username: string)

  function GroupKey(l: Labels): string {
    l.name + SEPARATOR + l.website + SEPARATOR + l.username
  }

  predicate SeparatorAt(s: string, i: int) {
    0 <= i < |s| - 1 && s[i] == ':' && s[i + 1] == ':'
  }

  predicate HasSeparator(s: string) {
    exists i | 0 <= i < |s| :: SeparatorAt(s, i)
  }

  predicate EndsInColon(s: string) { s != "" && s[|s| - 1] == ':' }

  predicate StartsWithColon(s: string) { s != "" && s[0] == ':' }

  // A name and a website that cannot run into the separators after them.
  predicate Clean(l: Labels) {
    !HasSeparator(l.name) && !EndsInColon(l.name) && !HasSeparator(l.website) && !EndsInColon(l.website)
  }

  // Labels that nothing else can be mistaken for.
  predicate Unambiguous(l: Labels) {
    Clean(l) && !HasSeparator(l.username) && !StartsWithColon(l.website) && !StartsWithColon(l.username)
  }

  // Where the characters of a key come from.
  ghost predicate KeyShape(key: string, l: Labels) {
    var n, w := |l.name|, |l.website|;
    && |key| == n + w + |l.username| + 4
    && (forall i | 0 <= i < n :: key[i] == l.name[i])
    && SeparatorAt(key, n)
    && (forall i | 0 <= i < w :: key[n + 2 + i] == l.website[i])
    && SeparatorAt(key, n + 2 + w)
    && (forall i | 0 <= i < |l.username| :: key[n + w + 4 + i] == l.username[i])
  }

  lemma KeyHasShape(l: Labels)
    ensures KeyShape(GroupKey(l), l)
  {
  }

  // A separator of the key never starts inside a part that has none and does not end in a colon.
  lemma NoSeparatorInside(key: string, from: nat, part: string, i: int)
    requires from + |part| < |key|
    requires forall j | 0 <= j < |part| :: key[from + j] == part[j]
    requires !HasSeparator(part) && !EndsInColon(part)
    requires from <= i < from + |part|
    ensures !SeparatorAt(key, i)
  {
    assert !SeparatorAt(part, i - from);
    assert key[i] == part[i - from];
    if i + 1 < from + |part| {
      assert key[i + 1] == part[i - from + 1];
    }
  }

  lemma NoSeparatorAfter(key: string, from: nat, part: string, i: int)
    requires |key| == from + |part|
    requires forall j | 0 <= j < |part| :: key[from + j] == part[j]
    requires !HasSeparator(part)
    ensures i >= from ==> !SeparatorAt(key, i)
  {
    assert !SeparatorAt(part, i - from);
    if from <= i < |key| - 1 {
      assert key[i] == part[i - from] && key[i + 1] == part[i - from + 1];
    }
  }

  lemma SameLengthsSameLabels(key: string, l: Labels, m: Labels)
    requires KeyShape(key, l) && KeyShape(key, m) && |l.name| == |m.name| && |l.website| == |m.website|
    ensures l == m
  {
    var n, w := |l.name|, |l.website|;
    assert l.name == key[..n] && m.name == key[..n];
    assert l.website == key[n + 2..n + 2 + w] && m.website == key[n + 2..n + 2 + w];
    assert l.username == key[n + w + 4..] && m.username == key[n + w + 4..];
  }

  lemma CleanOrder(key: string, l: Labels, m: Labels)
    requires Clean(l) && KeyShape(key, l) && KeyShape(key, m)
    ensures |l.name| <= |m.name|
    ensures |l.name| == |m.name| ==> |l.website| <= |m.website|
  {
    var n, w := |l.name|, |l.website|;
    if |m.name| < n {
      NoSeparatorInside(key, 0, l.name, |m.name|);
    } else if |m.name| == n && |m.website| < w {
      NoSeparatorInside(key, n + 2, l.website, n + 2 + |m.website|);
    }
  }

  // Two clean triples with the same key are the same triple.
  lemma CleanKeysAreInjective(l: Labels, m: Labels)
    requires Clean(l) && Clean(m) && GroupKey(l) == GroupKey(m)
    ensures l == m
  {
    var key := GroupKey(l);
    KeyHasShape(l);
    KeyHasShape(m);
    CleanOrder(key, l, m);
    CleanOrder(key, m, l);
    SameLengthsSameLabels(key, l, m);
  }

  // Where another separator could start in the key of an unambiguous triple.
  lemma AfterName(key: string, l: Labels, i: int)
    requires Unambiguous(l) && KeyShape(key, l) && |l.name| < i && SeparatorAt(key, i)
    ensures i >= |l.name| + 1 + (if l.website == "" then 0 else 1 + |l.website|)
  {
    var n, w := |l.name|, |l.website|;
    if l.website != "" {
      assert key[n + 2 + 0] == l.website[0];
      if i < n + 2 + w && i != n + 1 { NoSeparatorInside(key, n + 2, l.website, i); }
    }
  }

  lemma AfterSecond(key: string, l: Labels, i: int)
    requires Unambiguous(l) && KeyShape(key, l) && SeparatorAt(key, i)
    ensures i <= |l.name| + 2 + |l.website|
  {
    var start := |l.name| + |l.website| + 4;
    NoSeparatorAfter(key, start, l.username, i);
    assert l.username != "" ==> key[start + 0] == l.username[0];
  }

  lemma UnambiguousShape(key: string, l: Labels, m: Labels)
    requires Unambiguous(l) && KeyShape(key, l) && KeyShape(key, m)
    ensures |l.name| == |m.name| && |l.website| == |m.website|
  {
    CleanOrder(key, l, m);
    if |l.name| < |m.name| {
      AfterName(key, l, |m.name|);
    }
    AfterSecond(key, l, |m.name| + 2 + |m.website|);
  }

  // Nothing else has the key of an unambiguous triple.
  lemma UnambiguousIsUnique(l: Labels, m: Labels)
    requires Unambiguous(l) && GroupKey(l) == GroupKey(m)
    ensures l == m
  {
    KeyHasShape(l);
    KeyHasShape(m);
    UnambiguousShape(GroupKey(l), l, m);
    SameLengthsSameLabels(GroupKey(l), l, m);
  }

  // ------------------------------------------------------------------ an ambiguous triple has a double

  // Cutting a key at two other separators gives other labels with the same key.
  lemma Recut(key: string, i: int, j: int) returns (m: Labels)
    requires SeparatorAt(key, i) && SeparatorAt(key, j) && i + 2 <= j
    ensures GroupKey(m) == key && |m.name| == i && |m.website| == j - i - 2
  {
    m := Labels(key[..i], key[i + 2..j], key[j + 2..]);
    assert key[i..i + 2] == SEPARATOR && key[j..j + 2] == SEPARATOR;
    assert key == key[..i] + key[i..i + 2] + key[i + 2..j] + key[j..j + 2] + key[j + 2..];
  }

  // A place where the key of l can be cut differently.
  ghost predicate OtherCut(key: string, l: Labels, i: int, j: int) {
    SeparatorAt(key, i) && SeparatorAt(key, j) && i + 2 <= j && (i != |l.name| || j != |l.name| + 2 + |l.website|)
  }

  lemma PartSeparator(key: string, from: nat, part: string, i: int)
    requires from + |part| <= |key|
    requires forall j | 0 <= j < |part| :: key[from + j] == part[j]
    requires SeparatorAt(part, i)
    ensures SeparatorAt(key, from + i)
  {
    assert key[from + i] == part[i] && key[from + (i + 1)] == part[i + 1];
  }

  lemma NameCut(key: string, l: Labels) returns (i: int)
    requires KeyShape(key, l) && (HasSeparator(l.name) || EndsInColon(l.name))
    ensures OtherCut(key, l, i, |l.name| + 2 + |l.website|)
  {
    if HasSeparator(l.name) {
      i :| SeparatorAt(l.name, i);
      PartSeparator(key, 0, l.name, i);
    } else {
      i := |l.name| - 1;
      assert key[i] == l.name[i];
    }
  }

  lemma WebsiteCut(key: string, l: Labels) returns (j: int)
    requires KeyShape(key, l) && (HasSeparator(l.website) || EndsInColon(l.website))
    ensures OtherCut(key, l, |l.name|, j)
  {
    var start := |l.name| + 2;
    if HasSeparator(l.website) {
      var i :| SeparatorAt(l.website, i);
      PartSeparator(key, start, l.website, i);
      j := start + i;
    } else {
      j := start + (|l.website| - 1);
      assert key[j] == l.website[|l.website| - 1];
    }
  }

  lemma UsernameCut(key: string, l: Labels) returns (j: int)
    requires KeyShape(key, l) && (HasSeparator(l.username) || StartsWithColon(l.username))
    ensures OtherCut(key, l, |l.name|, j)
  {
    var start := |l.name| + |l.website| + 4;
    if HasSeparator(l.username) {
      var i :| SeparatorAt(l.username, i);
      PartSeparator(key, start, l.username, i);
      j := start + i;
    } else {
      j := start - 1;
      assert key[start + 0] == l.username[0];
    }
  }

  lemma LeadingColonCut(key: string, l: Labels)
    requires KeyShape(key, l) && StartsWithColon(l.website) && |l.website| > 1
    ensures OtherCut(key, l, |l.name| + 1, |l.name| + 2 + |l.website|)
  {
    assert key[|l.name| + 2 + 0] == l.website[0];
  }

  lemma AmbiguousCut(key: string, l: Labels) returns (i: int, j: int)
    requires KeyShape(key, l) && !Unambiguous(l)
    ensures OtherCut(key, l, i, j)
  {
    i, j := |l.name|, |l.name| + 2 + |l.website|;
    if HasSeparator(l.name) || EndsInColon(l.name) {
      i := NameCut(key, l);
    } else if HasSeparator(l.website) || EndsInColon(l.website) {
      j := WebsiteCut(key, l);
    } else if HasSeparator(l.username) || StartsWithColon(l.username) {
      j := UsernameCut(key, l);
    } else {
      LeadingColonCut(key, l);
      i := i + 1;
    }
  }

  lemma AmbiguousHasDouble(l: Labels) returns (m: Labels)
    requires !Unambiguous(l)
    ensures m != l && GroupKey(m) == GroupKey(l)
  {
    KeyHasShape(l);
    var i, j := AmbiguousCut(GroupKey(l), l);
    m := Recut(GroupKey(l), i, j);
  }

  // Main result: a triple is the only one with its key exactly when it is unambiguous.
  lemma KeyIsUniqueIff(l: Labels)
    ensures (forall m :: GroupKey(m) == GroupKey(l) ==> m == l) <==> Unambiguous(l)
  {
    if Unambiguous(l) {
      forall m | GroupKey(m) == GroupKey(l) ensures m == l { UnambiguousIsUnique(l, m); }
    } else {
      var m := AmbiguousHasDouble(l);
    }
  }

  // ------------------------------------------------------------------ entries with a name

  // A request must carry a name. Among named triples the first character of the name is never part
  // of a separator that matters.
  function WithoutFirst(l: Labels): Labels
    requires l.name != ""
  {
    l.(name := l.name[1..])
  }

  lemma KeyWithoutFirst(l: Labels)
    requires l.name != ""
    ensures GroupKey(l) == [l.name[0]] + GroupKey(WithoutFirst(l))
  {
    assert l.name == [l.name[0]] + l.name[1..];
  }

  lemma NamedDouble(l: Labels) returns (m: Labels)
    requires l.name != "" && !Unambiguous(WithoutFirst(l))
    ensures m != l && m.name != "" && GroupKey(m) == GroupKey(l)
  {
    var tail := AmbiguousHasDouble(WithoutFirst(l));
    m := tail.(name := [l.name[0]] + tail.name);
    KeyWithoutFirst(l);
    KeyWithoutFirst(m);
    assert WithoutFirst(m) == tail;
  }

  // Main result on what the service can receive: a named triple is the only named one with its key
  // exactly when it is unambiguous without the first character of its name.
  lemma NamedKeyIsUniqueIff(l: Labels)
    requires l.name != ""
    ensures (forall m: Labels | m.name != "" && GroupKey(m) == GroupKey(l) :: m == l) <==> Unambiguous(WithoutFirst(l))
  {
    if Unambiguous(WithoutFirst(l)) {
      KeyWithoutFirst(l);
      forall m: Labels | m.name != "" && GroupKey(m) == GroupKey(l) ensures m == l {
        KeyWithoutFirst(m);
        assert GroupKey(m)[0] == m.name[0] && GroupKey(l)[0] == l.name[0];
        assert GroupKey(m)[1..] == GroupKey(WithoutFirst(m)) && GroupKey(l)[1..] == GroupKey(WithoutFirst(l));
        UnambiguousIsUnique(WithoutFirst(l), WithoutFirst(m));
        assert m.name == [m.name[0]] + m.name[1..] && l.name == [l.name[0]] + l.name[1..];
      }
    } else {
      var m := NamedDouble(l);
    }
  }
}
