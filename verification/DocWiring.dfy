/**
 The package.json gate of scripts/check-doc-wiring-utils.ts: two manifests are compared
 through `stableJson`, a serialiser that sorts object keys with `localeCompare` at every
 depth, after the top-level `scripts` key is dropped.

 `localeCompare` is the parameter `cmp`. It is a consistent comparator, but it may call
 two distinct keys equal; `Array.prototype.sort` is stable, so such keys keep the order
 they had. The theorems say exactly what the gate compares then.
 */
module DocWiring {
  import opened JsonNumber
  import opened JsonText

  type Comparator = (Text, Text) -> int

  /** A consistent comparator (section 23.1.3.30.2 of ECMA-262): a total preorder. */
  ghost predicate Consistent(cmp: Comparator) {
    && (forall a :: cmp(a, a) == 0)
    && (forall a, b :: cmp(a, b) <= 0 <==> cmp(b, a) >= 0)
    && (forall a, b, c :: cmp(a, b) <= 0 && cmp(b, c) <= 0 ==> cmp(a, c) <= 0)
  }

  // --- Sorting the members of one object ---

  function Insert(cmp: Comparator, m: Member, sorted: seq<Member>): (r: seq<Member>)
    ensures |r| == |sorted| + 1
    ensures forall x :: x in r <==> x == m || x in sorted
  {
    if sorted == [] || cmp(m.key, sorted[0].key) <= 0 then [m] + sorted
    else [sorted[0]] + Insert(cmp, m, sorted[1..])
  }

  /** `Object.entries(value).sort(([a], [b]) => a.localeCompare(b))`: a stable sort. */
  function SortMembers(cmp: Comparator, ms: seq<Member>): (r: seq<Member>)
    ensures |r| == |ms|
    ensures forall m :: m in r <==> m in ms
  {
    if ms == [] then []
    else
      assert ms == [ms[0]] + ms[1..];
      Insert(cmp, ms[0], SortMembers(cmp, ms[1..]))
  }

  /** Inserting puts the member right before the first key that is not smaller. */
  lemma {:induction false} InsertAt(cmp: Comparator, m: Member, sorted: seq<Member>) returns (k: nat)
    ensures k <= |sorted|
    ensures Insert(cmp, m, sorted) == sorted[..k] + [m] + sorted[k..]
    ensures forall i | 0 <= i < k :: cmp(m.key, sorted[i].key) > 0
    ensures k < |sorted| ==> cmp(m.key, sorted[k].key) <= 0
  {
    if sorted == [] || cmp(m.key, sorted[0].key) <= 0 {
      k := 0;
    } else {
      k := InsertAt(cmp, m, sorted[1..]);
      k := k + 1;
      assert sorted[..k] == [sorted[0]] + sorted[1..][..k - 1];
    }
  }

  ghost predicate KeyBefore(ms: seq<Member>, x: Text, y: Text) {
    exists i, j :: 0 <= i < j < |ms| && ms[i].key == x && ms[j].key == y
  }

  /** `y` follows `x` in every stable sort of `ms`. */
  ghost predicate Follows(cmp: Comparator, ms: seq<Member>, x: Text, y: Text) {
    cmp(x, y) < 0 || (cmp(x, y) == 0 && KeyBefore(ms, x, y))
  }

  ghost predicate OrderedAs(cmp: Comparator, ms: seq<Member>, s: seq<Member>) {
    forall i, j | 0 <= i < j < |s| :: Follows(cmp, ms, s[i].key, s[j].key)
  }

  lemma {:induction false} SortIsOrdered(cmp: Comparator, ms: seq<Member>)
    requires Consistent(cmp)
    ensures OrderedAs(cmp, ms, SortMembers(cmp, ms))
  {
    if ms != [] {
      var rest := SortMembers(cmp, ms[1..]);
      SortIsOrdered(cmp, ms[1..]);
      var k := InsertAt(cmp, ms[0], rest);
      InsertedIsOrdered(cmp, ms, rest, k);
    }
  }

  lemma InsertedIsOrdered(cmp: Comparator, ms: seq<Member>, rest: seq<Member>, k: nat)
    requires Consistent(cmp)
    requires ms != [] && k <= |rest|
    requires forall m | m in rest :: m in ms[1..]
    requires OrderedAs(cmp, ms[1..], rest)
    requires forall i | 0 <= i < k :: cmp(ms[0].key, rest[i].key) > 0
    requires k < |rest| ==> cmp(ms[0].key, rest[k].key) <= 0
    ensures OrderedAs(cmp, ms, rest[..k] + [ms[0]] + rest[k..])
  {
    var s := rest[..k] + [ms[0]] + rest[k..];
    forall i, j | 0 <= i < j < |s|
      ensures Follows(cmp, ms, s[i].key, s[j].key)
    {
      if j == k {
        assert cmp(ms[0].key, rest[i].key) > 0;
      } else if i == k {
        FollowsInserted(cmp, ms, rest, k, j - 1);
      } else {
        var i', j' := if i < k then i else i - 1, if j < k then j else j - 1;
        FollowsInTail(cmp, ms, rest[i'].key, rest[j'].key);
      }
    }
  }

  lemma FollowsInserted(cmp: Comparator, ms: seq<Member>, rest: seq<Member>, k: nat, j: nat)
    requires Consistent(cmp)
    requires ms != [] && k <= j < |rest|
    requires rest[j] in ms[1..]
    requires cmp(ms[0].key, rest[k].key) <= 0
    requires OrderedAs(cmp, ms[1..], rest)
    ensures Follows(cmp, ms, ms[0].key, rest[j].key)
  {
    assert k < j ==> cmp(rest[k].key, rest[j].key) <= 0;
    assert cmp(rest[j].key, rest[j].key) == 0;
    var n :| 0 <= n < |ms[1..]| && ms[1..][n] == rest[j];
    assert ms[0].key == ms[0].key && ms[n + 1].key == rest[j].key;
  }

  lemma FollowsInTail(cmp: Comparator, ms: seq<Member>, x: Text, y: Text)
    requires ms != []
    requires Follows(cmp, ms[1..], x, y)
    ensures Follows(cmp, ms, x, y)
  {
    if cmp(x, y) == 0 {
      var i, j :| 0 <= i < j < |ms[1..]| && ms[1..][i].key == x && ms[1..][j].key == y;
      assert ms[i + 1].key == x && ms[j + 1].key == y;
    }
  }

  lemma InsertedIsDistinct(rest: seq<Member>, k: nat, m: Member)
    requires DistinctKeys(rest) && k <= |rest| && forall x | x in rest :: x.key != m.key
    ensures DistinctKeys(rest[..k] + [m] + rest[k..])
  {
    var s := rest[..k] + [m] + rest[k..];
    forall i, j | 0 <= i < j < |s|
      ensures s[i].key != s[j].key
    {
      var i', j' := if i < k then i else i - 1, if j < k then j else j - 1;
      if i == k {
        assert s[j] == rest[j'] && rest[j'] in rest;
      } else if j == k {
        assert s[i] == rest[i'] && rest[i'] in rest;
      } else {
        assert s[i] == rest[i'] && s[j] == rest[j'];
      }
    }
  }

  lemma {:induction false} SortKeepsDistinct(cmp: Comparator, ms: seq<Member>)
    requires DistinctKeys(ms)
    ensures DistinctKeys(SortMembers(cmp, ms))
  {
    if ms != [] {
      SortKeepsDistinct(cmp, ms[1..]);
      var rest := SortMembers(cmp, ms[1..]);
      var k := InsertAt(cmp, ms[0], rest);
      assert forall x | x in ms[1..] :: x.key != ms[0].key;
      InsertedIsDistinct(rest, k, ms[0]);
    }
  }

  function Keys(ms: seq<Member>): (r: set<Text>)
    ensures forall m | m in ms :: m.key in r
  {
    set m | m in ms :: m.key
  }

  /** Keys that `cmp` cannot tell apart come in the same order in both objects. */
  ghost predicate SameTieOrder(cmp: Comparator, a: seq<Member>, b: seq<Member>) {
    forall i, j | 0 <= i < j < |a| && cmp(a[i].key, a[j].key) == 0 :: KeyBefore(b, a[i].key, a[j].key)
  }

  ghost predicate KeysAlign(s: seq<Member>, t: seq<Member>) {
    |s| == |t| && forall i | 0 <= i < |s| :: s[i].key == t[i].key
  }

  lemma KeyBeforeAsymmetric(ms: seq<Member>, x: Text, y: Text)
    requires DistinctKeys(ms) && KeyBefore(ms, x, y)
    ensures !KeyBefore(ms, y, x)
  {
    var i, j :| 0 <= i < j < |ms| && ms[i].key == x && ms[j].key == y;
  }

  lemma FollowsAsymmetric(cmp: Comparator, ms: seq<Member>, x: Text, y: Text)
    requires Consistent(cmp) && DistinctKeys(ms)
    ensures Follows(cmp, ms, x, y) ==> !Follows(cmp, ms, y, x)
  {
    assert cmp(y, x) <= 0 ==> cmp(x, y) >= 0;
    if KeyBefore(ms, x, y) {
      KeyBeforeAsymmetric(ms, x, y);
    }
  }

  lemma OrderedTail(cmp: Comparator, ms: seq<Member>, s: seq<Member>)
    requires s != [] && OrderedAs(cmp, ms, s) && DistinctKeys(s)
    ensures OrderedAs(cmp, ms, s[1..]) && DistinctKeys(s[1..]) && Keys(s[1..]) == Keys(s) - {s[0].key}
  {
    TailKeys(s);
  }

  lemma AlignedCons(s: seq<Member>, t: seq<Member>)
    requires s != [] && t != [] && s[0].key == t[0].key && KeysAlign(s[1..], t[1..])
    ensures KeysAlign(s, t)
  {
    forall i | 0 < i < |s|
      ensures s[i].key == t[i].key
    {
      assert s[i] == s[1..][i - 1] && t[i] == t[1..][i - 1];
    }
  }

  /** Two arrangements of the same keys in the same strict order are the same. */
  lemma {:induction false} OrderIsUnique(cmp: Comparator, ms: seq<Member>, s: seq<Member>, t: seq<Member>)
    requires Consistent(cmp) && DistinctKeys(ms)
    requires OrderedAs(cmp, ms, s) && OrderedAs(cmp, ms, t)
    requires Keys(s) == Keys(t) && DistinctKeys(s) && DistinctKeys(t)
    ensures KeysAlign(s, t)
    decreases |s|
  {
    if s == [] {
      assert t != [] ==> t[0].key in Keys(t);
    } else {
      assert s[0].key in Keys(s) && t != [];
      HeadsAgree(cmp, ms, s, t);
      OrderedTail(cmp, ms, s);
      OrderedTail(cmp, ms, t);
      OrderIsUnique(cmp, ms, s[1..], t[1..]);
      AlignedCons(s, t);
    }
  }

  lemma HeadsAgree(cmp: Comparator, ms: seq<Member>, s: seq<Member>, t: seq<Member>)
    requires Consistent(cmp) && DistinctKeys(ms)
    requires OrderedAs(cmp, ms, s) && OrderedAs(cmp, ms, t)
    requires Keys(s) == Keys(t) && s != [] && t != []
    ensures s[0].key == t[0].key
  {
    assert s[0].key in Keys(t) && t[0].key in Keys(s);
    var i :| 0 <= i < |t| && t[i].key == s[0].key;
    var j :| 0 <= j < |s| && s[j].key == t[0].key;
    FollowsAsymmetric(cmp, ms, s[0].key, t[0].key);
  }

  lemma TailKeys(s: seq<Member>)
    requires s != [] && DistinctKeys(s)
    ensures Keys(s[1..]) == Keys(s) - {s[0].key}
  {
    assert s == [s[0]] + s[1..];
    forall k | k in Keys(s) && k != s[0].key
      ensures k in Keys(s[1..])
    {
      var m :| m in s && m.key == k;
      assert m in s[1..];
    }
  }

  lemma KeysOfSort(cmp: Comparator, ms: seq<Member>)
    ensures Keys(SortMembers(cmp, ms)) == Keys(ms)
  {
  }

  /** Sorting lines two objects up exactly when they have the same keys and the same
      order of keys that compare equal. */
  lemma SortAligns(cmp: Comparator, a: seq<Member>, b: seq<Member>)
    requires Consistent(cmp) && DistinctKeys(a) && DistinctKeys(b)
    ensures KeysAlign(SortMembers(cmp, a), SortMembers(cmp, b)) <==> Keys(a) == Keys(b) && SameTieOrder(cmp, a, b)
  {
    var s, t := SortMembers(cmp, a), SortMembers(cmp, b);
    SortIsOrdered(cmp, a);
    SortIsOrdered(cmp, b);
    SortKeepsDistinct(cmp, a);
    SortKeepsDistinct(cmp, b);
    KeysOfSort(cmp, a);
    KeysOfSort(cmp, b);
    if KeysAlign(s, t) {
      AlignedKeys(s, t);
      AlignedTies(cmp, a, b, s, t);
    }
    if Keys(a) == Keys(b) && SameTieOrder(cmp, a, b) {
      forall i, j | 0 <= i < j < |s|
        ensures Follows(cmp, b, s[i].key, s[j].key)
      {
        if cmp(s[i].key, s[j].key) == 0 {
          var p, q :| 0 <= p < q < |a| && a[p].key == s[i].key && a[q].key == s[j].key;
          assert KeyBefore(b, a[p].key, a[q].key);
        }
      }
      OrderIsUnique(cmp, b, s, t);
    }
  }

  lemma AlignedKeys(s: seq<Member>, t: seq<Member>)
    requires KeysAlign(s, t)
    ensures Keys(s) == Keys(t)
  {
    forall k | k in Keys(s)
      ensures k in Keys(t)
    {
      var i :| 0 <= i < |s| && s[i].key == k;
      assert t[i] in t;
    }
    forall k | k in Keys(t)
      ensures k in Keys(s)
    {
      var i :| 0 <= i < |t| && t[i].key == k;
      assert s[i] in s;
    }
  }

  lemma AlignedTies(cmp: Comparator, a: seq<Member>, b: seq<Member>, s: seq<Member>, t: seq<Member>)
    requires Consistent(cmp) && DistinctKeys(a)
    requires forall m :: m in s <==> m in a
    requires OrderedAs(cmp, a, s) && OrderedAs(cmp, b, t) && KeysAlign(s, t)
    ensures SameTieOrder(cmp, a, b)
  {
    forall i, j | 0 <= i < j < |a| && cmp(a[i].key, a[j].key) == 0
      ensures KeyBefore(b, a[i].key, a[j].key)
    {
      assert a[i] in s && a[j] in s;
      var p :| 0 <= p < |s| && s[p] == a[i];
      var q :| 0 <= q < |s| && s[q] == a[j];
      assert KeyBefore(a, a[i].key, a[j].key);
      FollowsAsymmetric(cmp, a, a[i].key, a[j].key);
      assert Follows(cmp, b, t[p].key, t[q].key);
    }
  }

  // --- stableJson ---

  function Join(parts: seq<Text>): Text {
    if parts == [] then []
    else if |parts| == 1 then parts[0]
    else parts[0] + ([COMMA] + Join(parts[1..]))
  }

  function StableJson(cmp: Comparator, v: Json): Text
    requires Printable(v)
    decreases v
  {
    match v
    case Num(x) => NumberText(x)
    case Str(s) => Quote(s)
    case Arr(items) =>
      [OPEN_BRACKET] + (Join(seq(|items|, i requires 0 <= i < |items| => StableJson(cmp, items[i]))) + [CLOSE_BRACKET])
    case Obj(ms) =>
      var entries := SortMembers(cmp, ms);
      assert forall i | 0 <= i < |entries| :: entries[i] in ms;
      [OPEN_BRACE] + (Join(seq(|entries|, i requires 0 <= i < |entries| =>
          Quote(entries[i].key) + ([COLON] + StableJson(cmp, entries[i].value)))) + [CLOSE_BRACE])
    case _ => Literal(v)
  }

  /** The value with the members of every object, at every depth, in sorted order. */
  function Canonical(cmp: Comparator, v: Json): Json
    decreases v
  {
    match v
    case Arr(items) => Arr(seq(|items|, i requires 0 <= i < |items| => Canonical(cmp, items[i])))
    case Obj(ms) =>
      var entries := SortMembers(cmp, ms);
      assert forall i | 0 <= i < |entries| :: entries[i] in ms;
      Obj(seq(|entries|, i requires 0 <= i < |entries| => Member(entries[i].key, Canonical(cmp, entries[i].value))))
    case _ => v
  }

  lemma {:induction false} JoinItems(parts: seq<Text>, items: seq<Json>)
    requires |parts| == |items|
    requires forall i | 0 <= i < |items| :: Printable(items[i]) && parts[i] == Print(items[i])
    ensures Join(parts) == PrintItems(items)
  {
    if |items| > 1 {
      JoinItems(parts[1..], items[1..]);
    }
  }

  lemma {:induction false} JoinMembers(parts: seq<Text>, ms: seq<Member>)
    requires |parts| == |ms|
    requires forall i | 0 <= i < |ms| :: Printable(ms[i].value) && parts[i] == PrintMember(ms[i])
    ensures Join(parts) == PrintMembers(ms)
  {
    if |ms| > 1 {
      JoinMembers(parts[1..], ms[1..]);
    }
  }

  /** `stableJson` prints the canonical arrangement of its argument. */
  lemma {:induction false} StableJsonPrintsCanonical(cmp: Comparator, v: Json)
    requires Printable(v)
    ensures Printable(Canonical(cmp, v))
    ensures StableJson(cmp, v) == Print(Canonical(cmp, v))
    decreases v
  {
    match v {
      case Arr(items) =>
        var parts := seq(|items|, i requires 0 <= i < |items| => StableJson(cmp, items[i]));
        forall i | 0 <= i < |items|
          ensures Printable(Canonical(cmp, items[i])) && parts[i] == Print(Canonical(cmp, items[i]))
        {
          StableJsonPrintsCanonical(cmp, items[i]);
        }
        JoinItems(parts, Canonical(cmp, v).items);
      case Obj(ms) =>
        var entries := SortMembers(cmp, ms);
        assert forall i | 0 <= i < |entries| :: entries[i] in ms;
        var parts := seq(|entries|, i requires 0 <= i < |entries| =>
          Quote(entries[i].key) + ([COLON] + StableJson(cmp, entries[i].value)));
        var ms' := Canonical(cmp, v).members;
        forall i | 0 <= i < |entries|
          ensures Printable(ms'[i].value) && parts[i] == PrintMember(ms'[i])
        {
          StableJsonPrintsCanonical(cmp, entries[i].value);
        }
        JoinMembers(parts, ms');
      case _ =>
    }
  }

  lemma {:induction false} ValidIsPrintable(v: Json)
    requires Valid(v)
    ensures Printable(v)
    decreases v
  {
    match v {
      case Arr(items) =>
        forall i | 0 <= i < |items| ensures Printable(items[i]) { ValidIsPrintable(items[i]); }
      case Obj(ms) =>
        forall i | 0 <= i < |ms| ensures Printable(ms[i].value) { ValidIsPrintable(ms[i].value); }
      case _ =>
    }
  }

  // --- What two equal texts mean ---

  /** Equal up to the order of object keys at every depth. */
  ghost predicate KeyOrderEqual(v: Json, w: Json)
    decreases v
  {
    match v
    case Arr(items) =>
      w.Arr? && |items| == |w.items| && forall i | 0 <= i < |items| :: KeyOrderEqual(items[i], w.items[i])
    case Obj(ms) =>
      w.Obj? && Keys(ms) == Keys(w.members)
      && forall i, j | 0 <= i < |ms| && 0 <= j < |w.members| && ms[i].key == w.members[j].key ::
        KeyOrderEqual(ms[i].value, w.members[j].value)
    case _ => v == w
  }

  /** Equal up to key order, where keys that compare equal keep their order. */
  ghost predicate TieOrderEqual(cmp: Comparator, v: Json, w: Json)
    decreases v
  {
    match v
    case Arr(items) =>
      w.Arr? && |items| == |w.items| && forall i | 0 <= i < |items| :: TieOrderEqual(cmp, items[i], w.items[i])
    case Obj(ms) =>
      w.Obj? && Keys(ms) == Keys(w.members) && SameTieOrder(cmp, ms, w.members)
      && forall i, j | 0 <= i < |ms| && 0 <= j < |w.members| && ms[i].key == w.members[j].key ::
        TieOrderEqual(cmp, ms[i].value, w.members[j].value)
    case _ => v == w
  }

  lemma {:induction false} CanonicalItemsEqual(cmp: Comparator, a: seq<Json>, b: seq<Json>)
    ensures Canonical(cmp, Arr(a)) == Canonical(cmp, Arr(b)) <==>
            |a| == |b| && forall i | 0 <= i < |a| :: Canonical(cmp, a[i]) == Canonical(cmp, b[i])
  {
    var ca, cb := Canonical(cmp, Arr(a)).items, Canonical(cmp, Arr(b)).items;
    assert |ca| == |a| && |cb| == |b|;
    assert forall i | 0 <= i < |a| :: ca[i] == Canonical(cmp, a[i]);
    assert forall i | 0 <= i < |b| :: cb[i] == Canonical(cmp, b[i]);
    if |a| == |b| && forall i | 0 <= i < |a| :: Canonical(cmp, a[i]) == Canonical(cmp, b[i]) {
      assert ca == cb;
    }
  }

  ghost predicate Agrees(cmp: Comparator, v: Json, w: Json) {
    Canonical(cmp, v) == Canonical(cmp, w) <==> TieOrderEqual(cmp, v, w)
  }

  lemma {:induction false} ItemsAgree(cmp: Comparator, a: seq<Json>, b: seq<Json>)
    requires |a| == |b| ==> forall i | 0 <= i < |a| :: Agrees(cmp, a[i], b[i])
    ensures Agrees(cmp, Arr(a), Arr(b))
  {
    CanonicalItemsEqual(cmp, a, b);
    if |a| == |b| {
      assert forall i | 0 <= i < |a| :: Agrees(cmp, a[i], b[i]);
    }
  }

  /** Members under the same key are equal up to key order. */
  ghost predicate ValuesTieEqual(cmp: Comparator, a: seq<Member>, b: seq<Member>) {
    forall i, j | 0 <= i < |a| && 0 <= j < |b| && a[i].key == b[j].key :: TieOrderEqual(cmp, a[i].value, b[j].value)
  }

  lemma {:induction false} ValuesAgreeIff(cmp: Comparator, a: seq<Member>, b: seq<Member>)
    requires forall i, j | 0 <= i < |a| && 0 <= j < |b| :: Agrees(cmp, a[i].value, b[j].value)
    ensures ValuesAgree(cmp, a, b) <==> ValuesTieEqual(cmp, a, b)
  {
    forall i, j | 0 <= i < |a| && 0 <= j < |b|
      ensures Canonical(cmp, a[i].value) == Canonical(cmp, b[j].value) <==> TieOrderEqual(cmp, a[i].value, b[j].value)
    {
      assert Agrees(cmp, a[i].value, b[j].value);
    }
  }

  lemma {:induction false} MembersTieEqual(cmp: Comparator, a: seq<Member>, b: seq<Member>)
    ensures TieOrderEqual(cmp, Obj(a), Obj(b)) <==>
            Keys(a) == Keys(b) && SameTieOrder(cmp, a, b) && ValuesTieEqual(cmp, a, b)
  {
  }

  lemma {:induction false} MembersAgree(cmp: Comparator, a: seq<Member>, b: seq<Member>)
    requires Consistent(cmp) && DistinctKeys(a) && DistinctKeys(b)
    requires forall i, j | 0 <= i < |a| && 0 <= j < |b| :: Agrees(cmp, a[i].value, b[j].value)
    ensures Agrees(cmp, Obj(a), Obj(b))
  {
    ValuesAgreeIff(cmp, a, b);
    MembersTieEqual(cmp, a, b);
    SortAligns(cmp, a, b);
    CanonicalMembersEqual(cmp, a, b);
  }

  lemma {:induction false} CanonicalEqual(cmp: Comparator, v: Json, w: Json)
    requires Consistent(cmp) && Valid(v) && Valid(w)
    ensures Agrees(cmp, v, w)
    decreases v
  {
    if v.Arr? && w.Arr? {
      forall i | 0 <= i < |v.items| && i < |w.items|
        ensures Agrees(cmp, v.items[i], w.items[i])
      {
        CanonicalEqual(cmp, v.items[i], w.items[i]);
      }
      ItemsAgree(cmp, v.items, w.items);
    } else if v.Obj? && w.Obj? {
      forall i, j | 0 <= i < |v.members| && 0 <= j < |w.members|
        ensures Agrees(cmp, v.members[i].value, w.members[j].value)
      {
        CanonicalEqual(cmp, v.members[i].value, w.members[j].value);
      }
      MembersAgree(cmp, v.members, w.members);
    }
  }

  /** Members under the same key have the same canonical value. */
  ghost predicate ValuesAgree(cmp: Comparator, a: seq<Member>, b: seq<Member>) {
    forall i, j | 0 <= i < |a| && 0 <= j < |b| && a[i].key == b[j].key ::
      Canonical(cmp, a[i].value) == Canonical(cmp, b[j].value)
  }

  lemma {:induction false} CanonicalMembersEqual(cmp: Comparator, a: seq<Member>, b: seq<Member>)
    requires DistinctKeys(a) && DistinctKeys(b)
    ensures Canonical(cmp, Obj(a)) == Canonical(cmp, Obj(b)) <==>
            KeysAlign(SortMembers(cmp, a), SortMembers(cmp, b)) && ValuesAgree(cmp, a, b)
  {
    var s, t := SortMembers(cmp, a), SortMembers(cmp, b);
    SortKeepsDistinct(cmp, a);
    SortKeepsDistinct(cmp, b);
    var ca, cb := Canonical(cmp, Obj(a)).members, Canonical(cmp, Obj(b)).members;
    if ca == cb {
      forall i | 0 <= i < |s|
        ensures s[i].key == t[i].key && Canonical(cmp, s[i].value) == Canonical(cmp, t[i].value)
      {
        assert ca[i] == cb[i];
      }
      forall i, j | 0 <= i < |a| && 0 <= j < |b| && a[i].key == b[j].key
        ensures Canonical(cmp, a[i].value) == Canonical(cmp, b[j].value)
      {
        assert a[i] in s && b[j] in t;
        var p :| 0 <= p < |s| && s[p] == a[i];
        var q :| 0 <= q < |t| && t[q] == b[j];
        assert p == q;
      }
    }
    if KeysAlign(s, t) && ValuesAgree(cmp, a, b) {
      forall i | 0 <= i < |s|
        ensures ca[i] == cb[i]
      {
        assert s[i] in a && t[i] in b;
      }
    }
  }

  /** `stableJson` gives equal texts for exactly the values that are equal up to key
      order, with keys that compare equal kept in order. */
  lemma StableJsonEqual(cmp: Comparator, v: Json, w: Json)
    requires Consistent(cmp) && Valid(v) && Valid(w)
    ensures Printable(v) && Printable(w)
    ensures StableJson(cmp, v) == StableJson(cmp, w) <==> TieOrderEqual(cmp, v, w)
  {
    ValidIsPrintable(v);
    ValidIsPrintable(w);
    StableJsonPrintsCanonical(cmp, v);
    StableJsonPrintsCanonical(cmp, w);
    CanonicalEqual(cmp, v, w);
    if StableJson(cmp, v) == StableJson(cmp, w) {
      PrintInjective(Canonical(cmp, v), Canonical(cmp, w));
    }
  }

  // --- When ties are harmless ---

  /** No object inside `v` has two distinct keys that `cmp` calls equal and that can change
      places, that is, of which neither is an array index. */
  ghost predicate TieFree(cmp: Comparator, v: Json) {
    match v
    case Arr(items) => forall i | 0 <= i < |items| :: TieFree(cmp, items[i])
    case Obj(ms) =>
      && (forall i, j | 0 <= i < j < |ms| && cmp(ms[i].key, ms[j].key) == 0 :: IsIndex(ms[i].key) || IsIndex(ms[j].key))
      && (forall i | 0 <= i < |ms| :: TieFree(cmp, ms[i].value))
    case _ => true
  }

  /** An array index stands on the same side of another key in every object with both. */
  lemma IndexKeepsPlace(a: seq<Member>, b: seq<Member>, i: nat, j: nat)
    requires i < j < |a| && DistinctKeys(a) && InPropertyOrder(a) && InPropertyOrder(b) && Keys(a) == Keys(b)
    requires IsIndex(a[i].key) || IsIndex(a[j].key)
    ensures KeyBefore(b, a[i].key, a[j].key)
  {
    var x, y := a[i].key, a[j].key;
    assert MayPrecede(x, y);
    IndexOrderIsForced(x, y);
    assert a[i].key in Keys(b) && a[j].key in Keys(b);
    var p :| 0 <= p < |b| && b[p].key == x;
    var q :| 0 <= q < |b| && b[q].key == y;
    assert q < p ==> MayPrecede(y, x);
  }

  lemma {:induction false} TieFreeForgetsOrder(cmp: Comparator, v: Json, w: Json)
    requires Valid(v) && Valid(w) && TieFree(cmp, v)
    ensures TieOrderEqual(cmp, v, w) <==> KeyOrderEqual(v, w)
    decreases v
  {
    match v {
      case Arr(items) =>
        if w.Arr? && |items| == |w.items| {
          forall i | 0 <= i < |items|
            ensures TieOrderEqual(cmp, items[i], w.items[i]) <==> KeyOrderEqual(items[i], w.items[i])
          {
            TieFreeForgetsOrder(cmp, items[i], w.items[i]);
          }
        }
      case Obj(ms) =>
        if w.Obj? {
          forall i, j | 0 <= i < |ms| && 0 <= j < |w.members|
            ensures TieOrderEqual(cmp, ms[i].value, w.members[j].value) <==>
                    KeyOrderEqual(ms[i].value, w.members[j].value)
          {
            TieFreeForgetsOrder(cmp, ms[i].value, w.members[j].value);
          }
          if Keys(ms) == Keys(w.members) {
            TiesKeepPlace(cmp, ms, w.members);
          }
        }
      case _ =>
    }
  }

  lemma TiesKeepPlace(cmp: Comparator, a: seq<Member>, b: seq<Member>)
    requires DistinctKeys(a) && InPropertyOrder(a) && InPropertyOrder(b) && Keys(a) == Keys(b)
    requires forall i, j | 0 <= i < j < |a| && cmp(a[i].key, a[j].key) == 0 :: IsIndex(a[i].key) || IsIndex(a[j].key)
    ensures SameTieOrder(cmp, a, b)
  {
    forall i, j | 0 <= i < j < |a| && cmp(a[i].key, a[j].key) == 0
      ensures KeyBefore(b, a[i].key, a[j].key)
    {
      IndexKeepsPlace(a, b, i, j);
    }
  }

  lemma {:induction false} KeyOrderEqualReflexive(v: Json)
    requires Valid(v)
    ensures KeyOrderEqual(v, v)
    decreases v
  {
    match v {
      case Arr(items) =>
        forall i | 0 <= i < |items| ensures KeyOrderEqual(items[i], items[i]) { KeyOrderEqualReflexive(items[i]); }
      case Obj(ms) =>
        forall i, j | 0 <= i < |ms| && 0 <= j < |ms| && ms[i].key == ms[j].key
          ensures KeyOrderEqual(ms[i].value, ms[j].value)
        {
          KeyOrderEqualReflexive(ms[i].value);
        }
      case _ =>
    }
  }

  /** A tie of keys that can change places, anywhere inside a value, gives a rearrangement of
      it that prints differently and is a JavaScript value too. */
  lemma {:induction false} TieMisleads(cmp: Comparator, v: Json) returns (w: Json)
    requires Consistent(cmp) && Valid(v) && !TieFree(cmp, v)
    ensures Valid(w) && KeyOrderEqual(v, w) && !TieOrderEqual(cmp, v, w)
    decreases v
  {
    match v {
      case Arr(items) =>
        var i :| 0 <= i < |items| && !TieFree(cmp, items[i]);
        var w' := TieMisleads(cmp, items[i]);
        w := Arr(items[i := w']);
        assert w.items[i] == w';
        forall k | 0 <= k < |items|
          ensures KeyOrderEqual(items[k], w.items[k])
        {
          if k != i { KeyOrderEqualReflexive(items[k]); }
        }
      case Obj(ms) =>
        if i, j :| 0 <= i < j < |ms| && cmp(ms[i].key, ms[j].key) == 0 && !IsIndex(ms[i].key) && !IsIndex(ms[j].key) {
          w := Obj(Swap(ms, i, j));
          SwapMisleads(cmp, ms, i, j);
        } else {
          var i :| 0 <= i < |ms| && !TieFree(cmp, ms[i].value);
          var w' := TieMisleads(cmp, ms[i].value);
          w := Obj(ms[i := Member(ms[i].key, w')]);
          ReplaceMember(ms, i, w');
          assert w.members[i].value == w' && ms[i].key == w.members[i].key;
        }
    }
  }

  function Swap(ms: seq<Member>, i: nat, j: nat): seq<Member>
    requires i < j < |ms|
  {
    ms[i := ms[j]][j := ms[i]]
  }

  lemma SwapKeepsMembers(ms: seq<Member>, i: nat, j: nat)
    requires i < j < |ms| && DistinctKeys(ms)
    ensures forall m :: m in Swap(ms, i, j) <==> m in ms
    ensures DistinctKeys(Swap(ms, i, j))
  {
    var s := Swap(ms, i, j);
    assert s[i] == ms[j] && s[j] == ms[i];
    forall m | m in ms
      ensures m in s
    {
      var k :| 0 <= k < |ms| && ms[k] == m;
      assert s[if k == i then j else if k == j then i else k] == m;
    }
  }

  lemma SwapKeepsPropertyOrder(ms: seq<Member>, i: nat, j: nat)
    requires i < j < |ms| && InPropertyOrder(ms) && !IsIndex(ms[i].key) && !IsIndex(ms[j].key)
    ensures InPropertyOrder(Swap(ms, i, j))
  {
    var s := Swap(ms, i, j);
    forall p, q | 0 <= p < q < |s|
      ensures MayPrecede(s[p].key, s[q].key)
    {
      if q != i && q != j {
        assert s[q] == ms[q];
        assert i < q ==> MayPrecede(ms[i].key, ms[q].key);
        assert j < q ==> MayPrecede(ms[j].key, ms[q].key);
        assert MayPrecede(ms[p].key, ms[q].key);
      }
    }
  }

  lemma SwapMisleads(cmp: Comparator, ms: seq<Member>, i: nat, j: nat)
    requires i < j < |ms| && Valid(Obj(ms)) && cmp(ms[i].key, ms[j].key) == 0
    requires !IsIndex(ms[i].key) && !IsIndex(ms[j].key)
    ensures var w := Obj(Swap(ms, i, j));
            Valid(w) && KeyOrderEqual(Obj(ms), w) && !TieOrderEqual(cmp, Obj(ms), w)
  {
    var s := Swap(ms, i, j);
    SwapKeepsMembers(ms, i, j);
    SwapKeepsPropertyOrder(ms, i, j);
    forall q | 0 <= q < |s|
      ensures Valid(s[q].value)
    {
      assert s[q] in ms;
    }
    forall p, q | 0 <= p < |ms| && 0 <= q < |s| && ms[p].key == s[q].key
      ensures KeyOrderEqual(ms[p].value, s[q].value)
    {
      assert s[q] in ms;
      KeyOrderEqualReflexive(ms[p].value);
    }
    assert s[i].key == ms[j].key && s[j].key == ms[i].key;
    assert KeyBefore(s, ms[j].key, ms[i].key);
    KeyBeforeAsymmetric(s, ms[j].key, ms[i].key);
    assert !SameTieOrder(cmp, ms, s);
  }

  lemma NotAnIndex(key: Text)
    requires key != [] && !IsDigit(key[0])
    ensures !IsIndex(key) && forall x :: MayPrecede(x, key)
  {
  }

  /** For instance: an accented letter written as one character and as two compare equal, so
      an object with both keys prints differently when they trade places. */
  lemma CanonicallyEquivalentKeys(cmp: Comparator)
    requires Consistent(cmp) && cmp([0xE9], [0x65, 0x301]) == 0
    ensures var ms := [Member([0xE9], Null), Member([0x65, 0x301], Bool(true))];
            && KeyOrderEqual(Obj(ms), Obj([ms[1], ms[0]]))
            && StableJson(cmp, Obj(ms)) != StableJson(cmp, Obj([ms[1], ms[0]]))
  {
    var ms := [Member([0xE9], Null), Member([0x65, 0x301], Bool(true))];
    assert ms[0].key != ms[1].key;
    NotAnIndex(ms[0].key);
    NotAnIndex(ms[1].key);
    assert Swap(ms, 0, 1) == [ms[1], ms[0]];
    SwapMisleads(cmp, ms, 0, 1);
    StableJsonEqual(cmp, Obj(ms), Obj(Swap(ms, 0, 1)));
  }

  lemma SameKeysOrdered(ms: seq<Member>, s: seq<Member>)
    requires KeysAlign(ms, s) && DistinctKeys(ms) && InPropertyOrder(ms)
    ensures DistinctKeys(s) && InPropertyOrder(s)
  {
    forall i, j | 0 <= i < j < |s|
      ensures s[i].key != s[j].key && MayPrecede(s[i].key, s[j].key)
    {
      assert s[i].key == ms[i].key && s[j].key == ms[j].key;
    }
  }

  lemma ReplaceMember(ms: seq<Member>, i: nat, value: Json)
    requires i < |ms| && Valid(Obj(ms)) && Valid(value) && KeyOrderEqual(ms[i].value, value)
    ensures var w := Obj(ms[i := Member(ms[i].key, value)]);
            Valid(w) && KeyOrderEqual(Obj(ms), w)
  {
    var s := ms[i := Member(ms[i].key, value)];
    assert KeysAlign(ms, s);
    AlignedKeys(ms, s);
    SameKeysOrdered(ms, s);
    forall p, q | 0 <= p < |ms| && 0 <= q < |s| && ms[p].key == s[q].key
      ensures KeyOrderEqual(ms[p].value, s[q].value)
    {
      assert p == q;
      if p != i { KeyOrderEqualReflexive(ms[p].value); }
    }
  }

  // --- The gate ---

  /** The key `scripts`. */
  const SCRIPTS: Text := [0x73, 0x63, 0x72, 0x69, 0x70, 0x74, 0x73]

  function WithoutKey(ms: seq<Member>, key: Text): (r: seq<Member>)
    ensures forall m :: m in r <==> m in ms && m.key != key
  {
    if ms == [] then []
    else if ms[0].key == key then WithoutKey(ms[1..], key)
    else [ms[0]] + WithoutKey(ms[1..], key)
  }

  /** `normalizePackageJsonForDocs`: a record without its own `scripts` key. */
  function Normalize(parsed: Json): Json {
    if parsed.Obj? then Obj(WithoutKey(parsed.members, SCRIPTS)) else parsed
  }

  lemma OrderedCons(m: Member, rest: seq<Member>)
    requires DistinctKeys(rest) && InPropertyOrder(rest)
    requires forall x | x in rest :: x.key != m.key && MayPrecede(m.key, x.key)
    ensures DistinctKeys([m] + rest) && InPropertyOrder([m] + rest)
  {
    var s := [m] + rest;
    forall i, j | 0 <= i < j < |s|
      ensures s[i].key != s[j].key && MayPrecede(s[i].key, s[j].key)
    {
      assert s[j] == rest[j - 1] && s[j] in rest;
      assert i > 0 ==> s[i] == rest[i - 1];
    }
  }

  lemma FirstPrecedes(ms: seq<Member>)
    requires ms != [] && DistinctKeys(ms) && InPropertyOrder(ms)
    ensures DistinctKeys(ms[1..]) && InPropertyOrder(ms[1..])
    ensures forall x | x in ms[1..] :: x.key != ms[0].key && MayPrecede(ms[0].key, x.key)
  {
    forall x | x in ms[1..]
      ensures x.key != ms[0].key && MayPrecede(ms[0].key, x.key)
    {
      var k :| 0 <= k < |ms[1..]| && ms[1..][k] == x;
      assert x == ms[k + 1];
    }
  }

  lemma {:induction false} WithoutKeyOrdered(ms: seq<Member>, key: Text)
    requires DistinctKeys(ms) && InPropertyOrder(ms)
    ensures DistinctKeys(WithoutKey(ms, key)) && InPropertyOrder(WithoutKey(ms, key))
  {
    if ms != [] {
      FirstPrecedes(ms);
      WithoutKeyOrdered(ms[1..], key);
      OrderedCons(ms[0], WithoutKey(ms[1..], key));
    }
  }

  lemma NormalizeValid(v: Json)
    requires Valid(v)
    ensures Valid(Normalize(v))
  {
    if v.Obj? {
      WithoutKeyOrdered(v.members, SCRIPTS);
      forall i | 0 <= i < |Normalize(v).members|
        ensures Valid(Normalize(v).members[i].value)
      {
        assert Normalize(v).members[i] in v.members;
      }
    }
  }

  lemma {:induction false} WithoutAbsentKey(ms: seq<Member>, key: Text)
    requires key !in Keys(ms)
    ensures WithoutKey(ms, key) == ms
  {
    if ms != [] {
      assert ms[0] in ms && forall m | m in ms[1..] :: m in ms;
      WithoutAbsentKey(ms[1..], key);
    }
  }

  // --- What the gate compares, in terms of the two manifests ---

  /** The key consists of the letters of the word. */
  predicate IsScripts(key: Text) {
    |key| == |"scripts"| && forall i | 0 <= i < |key| :: key[i] == "scripts"[i] as int
  }

  /** A member the gate looks at. */
  ghost predicate Wired(ms: seq<Member>, m: Member) {
    m in ms && !IsScripts(m.key)
  }

  ghost predicate HasWiredKey(ms: seq<Member>, key: Text) {
    exists m :: Wired(ms, m) && m.key == key
  }

  /** Apart from `scripts`, both objects have the same keys. */
  ghost predicate SameWiredKeys(a: seq<Member>, b: seq<Member>) {
    forall key :: HasWiredKey(a, key) <==> HasWiredKey(b, key)
  }

  /** Equal up to key order at every depth, the members `scripts` of two records apart. */
  ghost predicate SameWiring(v: Json, w: Json) {
    if v.Obj? && w.Obj? then
      && SameWiredKeys(v.members, w.members)
      && (forall m, n | Wired(v.members, m) && Wired(w.members, n) && m.key == n.key :: KeyOrderEqual(m.value, n.value))
    else KeyOrderEqual(v, w)
  }

  /** Two keys in this order that the gate looks at and that compare equal. */
  ghost predicate WiredTie(cmp: Comparator, ms: seq<Member>, x: Text, y: Text) {
    KeyBefore(ms, x, y) && !IsScripts(x) && !IsScripts(y) && cmp(x, y) == 0
  }

  /** The same, where keys that compare equal keep their order. */
  ghost predicate SameOrderedWiring(cmp: Comparator, v: Json, w: Json) {
    if v.Obj? && w.Obj? then
      && SameWiredKeys(v.members, w.members)
      && (forall x, y | WiredTie(cmp, v.members, x, y) :: KeyBefore(w.members, x, y))
      && (forall m, n | Wired(v.members, m) && Wired(w.members, n) && m.key == n.key ::
            TieOrderEqual(cmp, m.value, n.value))
    else TieOrderEqual(cmp, v, w)
  }

  /** No two keys of one object compare equal and can change places, `scripts` of a record
      and what is below it apart. */
  ghost predicate TieFreeWiring(cmp: Comparator, v: Json) {
    if v.Obj? then
      && (forall x, y | WiredTie(cmp, v.members, x, y) :: IsIndex(x) || IsIndex(y))
      && (forall m | Wired(v.members, m) :: TieFree(cmp, m.value))
    else TieFree(cmp, v)
  }

  lemma ScriptsIsTheWord(key: Text)
    ensures IsScripts(key) <==> key == SCRIPTS
  {
    assert |SCRIPTS| == |"scripts"| == 7;
    forall i | 0 <= i < 7
      ensures SCRIPTS[i] == "scripts"[i] as int
    {
    }
  }

  lemma WiredIsKept(ms: seq<Member>)
    ensures forall m :: m in WithoutKey(ms, SCRIPTS) <==> Wired(ms, m)
  {
    forall m
      ensures m in WithoutKey(ms, SCRIPTS) <==> Wired(ms, m)
    {
      ScriptsIsTheWord(m.key);
    }
  }

  lemma WiredKeys(ms: seq<Member>, key: Text)
    ensures key in Keys(WithoutKey(ms, SCRIPTS)) <==> HasWiredKey(ms, key)
  {
    WiredIsKept(ms);
    if HasWiredKey(ms, key) {
      var m :| Wired(ms, m) && m.key == key;
      assert m in WithoutKey(ms, SCRIPTS);
    }
  }

  lemma SameKeysIff(a: seq<Member>, b: seq<Member>)
    ensures Keys(WithoutKey(a, SCRIPTS)) == Keys(WithoutKey(b, SCRIPTS)) <==> SameWiredKeys(a, b)
  {
    forall key
      ensures key in Keys(WithoutKey(a, SCRIPTS)) <==> HasWiredKey(a, key)
      ensures key in Keys(WithoutKey(b, SCRIPTS)) <==> HasWiredKey(b, key)
    {
      WiredKeys(a, key);
      WiredKeys(b, key);
    }
  }

  /** Two members that stay keep their order. */
  lemma {:induction false} OrderIsKept(ms: seq<Member>, key: Text, x: Text, y: Text)
    ensures KeyBefore(WithoutKey(ms, key), x, y) <==> KeyBefore(ms, x, y) && x != key && y != key
  {
    if ms != [] {
      var rest := WithoutKey(ms[1..], key);
      OrderIsKept(ms[1..], key, x, y);
      BeforeCons(ms[0], ms[1..], x, y);
      BeforeCons(ms[0], rest, x, y);
      assert ms == [ms[0]] + ms[1..];
      if y != key {
        KeptKey(ms[1..], key, y);
      }
    }
  }

  ghost predicate HasKey(ms: seq<Member>, key: Text) {
    exists m :: m in ms && m.key == key
  }

  lemma KeptKey(ms: seq<Member>, key: Text, y: Text)
    requires y != key
    ensures HasKey(WithoutKey(ms, key), y) <==> HasKey(ms, y)
  {
    if HasKey(ms, y) {
      var m :| m in ms && m.key == y;
      assert m in WithoutKey(ms, key);
    }
  }

  lemma BeforeCons(m: Member, rest: seq<Member>, x: Text, y: Text)
    ensures KeyBefore([m] + rest, x, y) <==> KeyBefore(rest, x, y) || (m.key == x && HasKey(rest, y))
  {
    var ms := [m] + rest;
    if KeyBefore(ms, x, y) {
      var i, j :| 0 <= i < j < |ms| && ms[i].key == x && ms[j].key == y;
      assert ms[j] == rest[j - 1] && rest[j - 1] in rest;
      if i > 0 {
        assert rest[i - 1].key == x && rest[j - 1].key == y;
      }
    }
    if KeyBefore(rest, x, y) {
      var i, j :| 0 <= i < j < |rest| && rest[i].key == x && rest[j].key == y;
      assert ms[i + 1].key == x && ms[j + 1].key == y;
    }
    if m.key == x && HasKey(rest, y) {
      var n :| n in rest && n.key == y;
      var j :| 0 <= j < |rest| && rest[j] == n;
      assert ms[0].key == x && ms[j + 1].key == y;
    }
  }

  lemma TiesAreWired(cmp: Comparator, ms: seq<Member>, x: Text, y: Text)
    ensures KeyBefore(WithoutKey(ms, SCRIPTS), x, y) && cmp(x, y) == 0 <==> WiredTie(cmp, ms, x, y)
  {
    OrderIsKept(ms, SCRIPTS, x, y);
    ScriptsIsTheWord(x);
    ScriptsIsTheWord(y);
  }

  lemma SameTiesIff(cmp: Comparator, a: seq<Member>, b: seq<Member>)
    ensures SameTieOrder(cmp, WithoutKey(a, SCRIPTS), WithoutKey(b, SCRIPTS)) <==>
            forall x, y | WiredTie(cmp, a, x, y) :: KeyBefore(b, x, y)
  {
    var a', b' := WithoutKey(a, SCRIPTS), WithoutKey(b, SCRIPTS);
    forall x, y
      ensures KeyBefore(a', x, y) && cmp(x, y) == 0 <==> WiredTie(cmp, a, x, y)
      ensures WiredTie(cmp, a, x, y) ==> (KeyBefore(b', x, y) <==> KeyBefore(b, x, y))
    {
      TiesAreWired(cmp, a, x, y);
      OrderIsKept(b, SCRIPTS, x, y);
      ScriptsIsTheWord(x);
      ScriptsIsTheWord(y);
    }
    if forall x, y | WiredTie(cmp, a, x, y) :: KeyBefore(b, x, y) {
      forall i, j | 0 <= i < j < |a'| && cmp(a'[i].key, a'[j].key) == 0
        ensures KeyBefore(b', a'[i].key, a'[j].key)
      {
        assert KeyBefore(a', a'[i].key, a'[j].key);
      }
    }
    if SameTieOrder(cmp, a', b') {
      forall x, y | WiredTie(cmp, a, x, y)
        ensures KeyBefore(b, x, y)
      {
        var i, j :| 0 <= i < j < |a'| && a'[i].key == x && a'[j].key == y;
        assert KeyBefore(b', a'[i].key, a'[j].key);
      }
    }
  }

  /** Every index pair is a pair of members, and the other way round. */
  lemma PairsByIndex(a: seq<Member>, b: seq<Member>, same: (Json, Json) -> bool)
    ensures (forall i, j | 0 <= i < |a| && 0 <= j < |b| && a[i].key == b[j].key :: same(a[i].value, b[j].value)) <==>
            (forall m, n | m in a && n in b && m.key == n.key :: same(m.value, n.value))
  {
    if forall i, j | 0 <= i < |a| && 0 <= j < |b| && a[i].key == b[j].key :: same(a[i].value, b[j].value) {
      forall m, n | m in a && n in b && m.key == n.key
        ensures same(m.value, n.value)
      {
        var i :| 0 <= i < |a| && a[i] == m;
        var j :| 0 <= j < |b| && b[j] == n;
      }
    }
  }

  /** The relation holds between the values of any two members with the same key. */
  ghost predicate Alike(a: seq<Member>, b: seq<Member>, same: (Json, Json) -> bool) {
    forall m, n | m in a && n in b && m.key == n.key :: same(m.value, n.value)
  }

  ghost predicate WiredAlike(a: seq<Member>, b: seq<Member>, same: (Json, Json) -> bool) {
    forall m, n | Wired(a, m) && Wired(b, n) && m.key == n.key :: same(m.value, n.value)
  }

  lemma WiredAlikeIff(a: seq<Member>, b: seq<Member>, same: (Json, Json) -> bool)
    ensures Alike(WithoutKey(a, SCRIPTS), WithoutKey(b, SCRIPTS), same) <==> WiredAlike(a, b, same)
  {
    WiredIsKept(a);
    WiredIsKept(b);
  }

  lemma KeyOrderEqualObjects(a: seq<Member>, b: seq<Member>)
    ensures KeyOrderEqual(Obj(a), Obj(b)) <==>
            Keys(a) == Keys(b) && Alike(a, b, (x: Json, y: Json) => KeyOrderEqual(x, y))
  {
    PairsByIndex(a, b, (x: Json, y: Json) => KeyOrderEqual(x, y));
  }

  lemma TieOrderEqualObjects(cmp: Comparator, a: seq<Member>, b: seq<Member>)
    ensures TieOrderEqual(cmp, Obj(a), Obj(b)) <==>
            && Keys(a) == Keys(b) && SameTieOrder(cmp, a, b)
            && Alike(a, b, (x: Json, y: Json) => TieOrderEqual(cmp, x, y))
  {
    PairsByIndex(a, b, (x: Json, y: Json) => TieOrderEqual(cmp, x, y));
  }

  lemma SameWiringIff(v: Json, w: Json)
    ensures KeyOrderEqual(Normalize(v), Normalize(w)) <==> SameWiring(v, w)
  {
    if v.Obj? && w.Obj? {
      SameKeysIff(v.members, w.members);
      WiredAlikeIff(v.members, w.members, (x: Json, y: Json) => KeyOrderEqual(x, y));
      KeyOrderEqualObjects(WithoutKey(v.members, SCRIPTS), WithoutKey(w.members, SCRIPTS));
    }
  }

  lemma SameOrderedWiringIff(cmp: Comparator, v: Json, w: Json)
    ensures TieOrderEqual(cmp, Normalize(v), Normalize(w)) <==> SameOrderedWiring(cmp, v, w)
  {
    if v.Obj? && w.Obj? {
      SameKeysIff(v.members, w.members);
      SameTiesIff(cmp, v.members, w.members);
      WiredAlikeIff(v.members, w.members, (x: Json, y: Json) => TieOrderEqual(cmp, x, y));
      TieOrderEqualObjects(cmp, WithoutKey(v.members, SCRIPTS), WithoutKey(w.members, SCRIPTS));
    }
  }

  lemma TieFreeWiringIff(cmp: Comparator, v: Json)
    ensures TieFree(cmp, Normalize(v)) <==> TieFreeWiring(cmp, v)
  {
    if v.Obj? {
      var a := WithoutKey(v.members, SCRIPTS);
      WiredIsKept(v.members);
      forall x, y
        ensures KeyBefore(a, x, y) && cmp(x, y) == 0 <==> WiredTie(cmp, v.members, x, y)
      {
        TiesAreWired(cmp, v.members, x, y);
      }
      if TieFreeWiring(cmp, v) {
        forall i, j | 0 <= i < j < |a| && cmp(a[i].key, a[j].key) == 0
          ensures IsIndex(a[i].key) || IsIndex(a[j].key)
        {
          assert KeyBefore(a, a[i].key, a[j].key);
        }
        assert forall i | 0 <= i < |a| :: a[i] in a;
      }
      if TieFree(cmp, Obj(a)) {
        forall x, y | WiredTie(cmp, v.members, x, y)
          ensures IsIndex(x) || IsIndex(y)
        {
          var i, j :| 0 <= i < j < |a| && a[i].key == x && a[j].key == y;
        }
        forall m | Wired(v.members, m)
          ensures TieFree(cmp, m.value)
        {
          var i :| 0 <= i < |a| && a[i] == m;
        }
      }
    }
  }

  /** `packageJsonChangeRequiresDocUpdate`, after JSON.parse: the gate asks for a doc
      update exactly when the manifests differ, apart from top-level `scripts` and from
      key order among keys that `localeCompare` tells apart. */
  method PackageJsonChangeRequiresDocUpdate(cmp: Comparator, before: Json, after: Json) returns (changed: bool)
    requires Consistent(cmp) && Valid(before) && Valid(after)
    ensures changed <==> !SameOrderedWiring(cmp, before, after)
    ensures TieFreeWiring(cmp, before) ==> (changed <==> !SameWiring(before, after))
  {
    NormalizeValid(before);
    NormalizeValid(after);
    StableJsonEqual(cmp, Normalize(before), Normalize(after));
    SameOrderedWiringIff(cmp, before, after);
    TieFreeWiringIff(cmp, before);
    SameWiringIff(before, after);
    if TieFree(cmp, Normalize(before)) {
      TieFreeForgetsOrder(cmp, Normalize(before), Normalize(after));
    }
    changed := StableJson(cmp, Normalize(before)) != StableJson(cmp, Normalize(after));
  }

  /** The gate reports no change for this pair. */
  ghost predicate Accepts(cmp: Comparator, before: Json, after: Json)
    requires Printable(Normalize(before)) && Printable(Normalize(after))
  {
    StableJson(cmp, Normalize(before)) == StableJson(cmp, Normalize(after))
  }

  /** The gate ignores key order and `scripts`, and nothing else, whatever the other manifest
      is. */
  ghost predicate IgnoresExactlyKeyOrder(cmp: Comparator, before: Json)
    requires Printable(Normalize(before))
  {
    forall after | Valid(after) && Printable(Normalize(after)) ::
      Accepts(cmp, before, after) <==> SameWiring(before, after)
  }

  /** The gate does what its comment promises for a manifest exactly when no object in it
      has two distinct keys that `localeCompare` calls equal, array indices and `scripts`
      apart. */
  lemma GateIgnoresKeyOrderIff(cmp: Comparator, before: Json)
    requires Consistent(cmp) && Valid(before)
    ensures Printable(Normalize(before))
    ensures IgnoresExactlyKeyOrder(cmp, before) <==> TieFreeWiring(cmp, before)
  {
    NormalizeValid(before);
    ValidIsPrintable(Normalize(before));
    TieFreeWiringIff(cmp, before);
    if TieFree(cmp, Normalize(before)) {
      forall after | Valid(after) && Printable(Normalize(after))
        ensures Accepts(cmp, before, after) <==> SameWiring(before, after)
      {
        NormalizeValid(after);
        StableJsonEqual(cmp, Normalize(before), Normalize(after));
        TieFreeForgetsOrder(cmp, Normalize(before), Normalize(after));
        SameWiringIff(before, after);
      }
    } else {
      TieBreaksGate(cmp, before);
    }
  }

  lemma TieBreaksGate(cmp: Comparator, before: Json)
    requires Consistent(cmp) && Valid(before) && Valid(Normalize(before)) && Printable(Normalize(before))
    requires !TieFree(cmp, Normalize(before))
    ensures !IgnoresExactlyKeyOrder(cmp, before)
  {
    var v := Normalize(before);
    var w := TieMisleads(cmp, v);
    if v.Obj? {
      WithoutAbsentKey(w.members, SCRIPTS);
    }
    assert Normalize(w) == w;
    ValidIsPrintable(w);
    StableJsonEqual(cmp, v, w);
    SameWiringIff(before, w);
    assert !Accepts(cmp, before, w);
  }
}
