/**
 Choosing a rate-limit rule for a request and building its counting key from
 header values (interceptor/limit/routerlimit.go).
 */
module RouterLimiting {

  datatype Rule = Rule(prefix: string, headers: seq<string>, quota: int, duration: int)

  datatype Default = Default(headers: seq<string>, quota: int, duration: int)

  datatype BlockRule = BlockRule(key: string, value: string)

  datatype RouterLimit = RouterLimit(rules: seq<Rule>, block: seq<BlockRule>, default: Default, disabled: bool)

  datatype LimitValue = LimitValue(key: string, message: string, duration: int, quota: int)

  const NO_LIMIT: int := -1
  const BLOCKED: int := 0

  const Unlimited := LimitValue("", "", 0, NO_LIMIT)

  // Getters.

  /** A logged field's value: a string, or anything else with its printed form. */
  datatype FieldValue = StringValue(s: string) | OtherValue(printed: string)

  datatype Getter = MapGetter(fields: seq<(string, FieldValue)>) | HeaderGetter(header: map<string, seq<string>>)
  {
    /** The empty string stands for a missing key. */
    function Get(key: string): string {
      match this
      case MapGetter(fields) => FirstField(fields, key)
      case HeaderGetter(header) => if key in header && |header[key]| > 0 then header[key][0] else ""
    }
  }

  function Printed(v: FieldValue): string {
    match v
    case StringValue(s) => s
    case OtherValue(printed) => printed
  }

  function FirstField(fields: seq<(string, FieldValue)>, key: string): string {
    if fields == [] then ""
    else if fields[0].0 == key then Printed(fields[0].1)
    else FirstField(fields[1..], key)
  }

  /** The first field with the key decides; without one the result is empty. */
  lemma {:induction false} FirstFieldSpec(fields: seq<(string, FieldValue)>, key: string)
    ensures (forall i :: 0 <= i < |fields| ==> fields[i].0 != key) ==> FirstField(fields, key) == ""
    ensures forall i :: 0 <= i < |fields| && fields[i].0 == key && (forall j :: 0 <= j < i ==> fields[j].0 != key)
              ==> FirstField(fields, key) == Printed(fields[i].1)
  {
    if fields != [] && fields[0].0 != key {
      FirstFieldSpec(fields[1..], key);
      forall i | 0 <= i < |fields| && fields[i].0 == key && (forall j :: 0 <= j < i ==> fields[j].0 != key)
        ensures FirstField(fields, key) == Printed(fields[i].1)
      {
        assert fields[1..][i - 1] == fields[i];
        assert forall j :: 0 <= j < i - 1 ==> fields[1..][j] == fields[j + 1];
      }
    }
  }

  /** The first field with this key. */
  predicate FirstAt(fields: seq<(string, FieldValue)>, key: string, i: nat) {
    i < |fields| && fields[i].0 == key && forall j :: 0 <= j < i ==> fields[j].0 != key
  }

  /**
   What a getter reads. A map: the string of the first field with the key, or the
   printed form when its value is no string. A header: the first of its values. A
   missing key, or a header without values, reads as empty.
   */
  lemma GetterReads(g: Getter, key: string)
    ensures g.MapGetter? ==>
              && (forall i: nat :: FirstAt(g.fields, key, i) && g.fields[i].1.StringValue? ==> g.Get(key) == g.fields[i].1.s)
              && (forall i: nat :: FirstAt(g.fields, key, i) && g.fields[i].1.OtherValue? ==> g.Get(key) == g.fields[i].1.printed)
              && ((forall i :: 0 <= i < |g.fields| ==> g.fields[i].0 != key) ==> g.Get(key) == "")
    ensures g.HeaderGetter? ==>
              && (key in g.header && g.header[key] != [] ==> g.Get(key) == g.header[key][0])
              && (key !in g.header || g.header[key] == [] ==> g.Get(key) == "")
  {
    if g.MapGetter? {
      FirstFieldSpec(g.fields, key);
    }
  }

  method MapGet(fields: seq<(string, FieldValue)>, key: string) returns (v: string)
    ensures v == MapGetter(fields).Get(key)
  {
    FirstFieldSpec(fields, key);
    for i := 0 to |fields|
      invariant forall j :: 0 <= j < i ==> fields[j].0 != key
    {
      if fields[i].0 == key {
        return Printed(fields[i].1);
      }
    }
    return "";
  }

  // Keys.

  /** The values of the headers that are present, in the rule's order. */
  function PresentValues(headers: seq<string>, g: Getter): seq<string> {
    if headers == [] then []
    else
      var vs, v := PresentValues(headers[..|headers| - 1], g), g.Get(headers[|headers| - 1]);
      if v != "" then vs + [v] else vs
  }

  function PresentNames(headers: seq<string>, g: Getter): seq<string> {
    if headers == [] then []
    else
      var ns, h := PresentNames(headers[..|headers| - 1], g), headers[|headers| - 1];
      if g.Get(h) != "" then ns + [h] else ns
  }

  /** The counting key: a dot before each value. */
  function JoinKey(vs: seq<string>): string {
    if vs == [] then "" else JoinKey(vs[..|vs| - 1]) + ("." + vs[|vs| - 1])
  }

  function Concat(ns: seq<string>): string {
    if ns == [] then "" else Concat(ns[..|ns| - 1]) + ns[|ns| - 1]
  }

  /** What a rule says about a request whose listed headers have these names and values. */
  function QuotaOf(quota: int, duration: int, names: seq<string>, values: seq<string>): LimitValue {
    if quota < 0 || values == [] then Unlimited
    else LimitValue(JoinKey(values), "trace key " + Concat(names) + ", limit key " + JoinKey(values), duration, quota)
  }

  function Quota(rule: Rule, g: Getter): LimitValue {
    QuotaOf(rule.quota, rule.duration, PresentNames(rule.headers, g), PresentValues(rule.headers, g))
  }

  lemma {:induction false} JoinKeyEmpty(vs: seq<string>)
    ensures JoinKey(vs) == "" <==> vs == []
  {
  }

  function KeyOf(headers: seq<string>, g: Getter): string {
    JoinKey(PresentValues(headers, g))
  }

  function NamesOf(headers: seq<string>, g: Getter): string {
    Concat(PresentNames(headers, g))
  }

  /** One round of the loop. */
  lemma NextHeader(headers: seq<string>, i: nat, g: Getter)
    requires i < |headers|
    ensures KeyOf(headers[..i + 1], g)
            == KeyOf(headers[..i], g) + if g.Get(headers[i]) == "" then "" else "." + g.Get(headers[i])
    ensures NamesOf(headers[..i + 1], g)
            == NamesOf(headers[..i], g) + if g.Get(headers[i]) == "" then "" else headers[i]
  {
    KeyParts(headers[..i], headers[i], g);
    assert headers[..i + 1] == headers[..i] + [headers[i]];
    hide *;
  }

  lemma AddNothing(s: string)
    ensures s + "" == s
  {
  }

  method GetQuota(rule: Rule, g: Getter) returns (r: LimitValue)
    ensures r == Quota(rule, g)
  {
    if rule.quota < 0 {
      return LimitValue("", "", 0, NO_LIMIT);
    }
    var key, target := "", "";
    JoinKeyEmpty(PresentValues(rule.headers, g));
    assert rule.headers[..0] == [] && KeyOf([], g) == "" && NamesOf([], g) == "";
    assert Quota(rule, g) == if KeyOf(rule.headers, g) == "" then Unlimited
                             else LimitValue(KeyOf(rule.headers, g), "trace key " + NamesOf(rule.headers, g)
                                             + ", limit key " + KeyOf(rule.headers, g), rule.duration, rule.quota);
    hide KeyOf, NamesOf, Quota;
    for i := 0 to |rule.headers|
      invariant key == KeyOf(rule.headers[..i], g) && target == NamesOf(rule.headers[..i], g)
    {
      NextHeader(rule.headers, i, g);
      AddNothing(key);
      AddNothing(target);
      var h := rule.headers[i];
      var v := g.Get(h);
      if v != "" {
        key := key + ("." + v);
        target := target + h;
      }
    }
    assert rule.headers[..|rule.headers|] == rule.headers;
    if key == "" {
      return LimitValue("", "", 0, NO_LIMIT);
    }
    r := LimitValue(key, "trace key " + target + ", limit key " + key, rule.duration, rule.quota);
  }

  // Choosing a rule.

  function KeyName(key: string): string {
    if "x-" <= key then key[2..] else key
  }

  /** The first entry of the block list that the request meets, or the list's length. */
  function FirstBlock(block: seq<BlockRule>, g: Getter): (i: nat)
    ensures i <= |block|
    ensures forall j :: 0 <= j < i ==> g.Get(block[j].key) != block[j].value
    ensures i < |block| ==> g.Get(block[i].key) == block[i].value
  {
    if block == [] then 0
    else
      var i := FirstBlock(block[..|block| - 1], g);
      if i < |block| - 1 || g.Get(block[|block| - 1].key) == block[|block| - 1].value then i else |block|
  }

  function FirstRule(rules: seq<Rule>, path: string): (i: nat)
    ensures i <= |rules|
    ensures forall j :: 0 <= j < i ==> !(rules[j].prefix <= path)
    ensures i < |rules| ==> rules[i].prefix <= path
  {
    if rules == [] then 0
    else
      var i := FirstRule(rules[..|rules| - 1], path);
      if i < |rules| - 1 || rules[|rules| - 1].prefix <= path then i else |rules|
  }

  /** The first rule in order whose prefix fits, or else the default. */
  function SelectedRule(r: RouterLimit, path: string): Rule {
    var i := FirstRule(r.rules, path);
    if i < |r.rules| then r.rules[i] else Rule("", r.default.headers, r.default.quota, r.default.duration)
  }

  function MatchOf(r: RouterLimit, path: string, g: Getter): LimitValue {
    if r.disabled then Unlimited
    else
      var b := FirstBlock(r.block, g);
      if b < |r.block| then
        LimitValue("", KeyName(r.block[b].key) + " [ " + g.Get(r.block[b].key) + " ] is in the blacklist", 0, BLOCKED)
      else Quota(SelectedRule(r, path), g)
  }

  method Match(r: RouterLimit, path: string, g: Getter) returns (v: LimitValue)
    ensures v == MatchOf(r, path, g)
  {
    if r.disabled {
      return LimitValue("", "", 0, NO_LIMIT);
    }
    for i := 0 to |r.block|
      invariant forall j :: 0 <= j < i ==> g.Get(r.block[j].key) != r.block[j].value
    {
      var headerValue := g.Get(r.block[i].key);
      if headerValue == r.block[i].value {
        return LimitValue("", KeyName(r.block[i].key) + " [ " + headerValue + " ] is in the blacklist", 0, BLOCKED);
      }
    }
    for i := 0 to |r.rules|
      invariant forall j :: 0 <= j < i ==> !(r.rules[j].prefix <= path)
    {
      if !(r.rules[i].prefix <= path) {
        continue;
      }
      v := GetQuota(r.rules[i], g);
      return;
    }
    v := GetQuota(Rule("", r.default.headers, r.default.quota, r.default.duration), g);
  }

  // What a match answers.

  /** A block entry that the request meets. */
  predicate BlockedBy(b: BlockRule, g: Getter) {
    g.Get(b.key) == b.value
  }

  lemma PresentOne(h: string, g: Getter)
    ensures PresentValues([h], g) == if g.Get(h) == "" then [] else [g.Get(h)]
    ensures PresentNames([h], g) == if g.Get(h) == "" then [] else [h]
  {
    assert [h][..0] == [];
    assert PresentValues([], g) == [] && PresentNames([], g) == [];
  }

  /** The present values and names of a list of headers are those of its parts, in order. */
  lemma {:induction false} PresentParts(a: seq<string>, b: seq<string>, g: Getter)
    ensures PresentValues(a + b, g) == PresentValues(a, g) + PresentValues(b, g)
    ensures PresentNames(a + b, g) == PresentNames(a, g) + PresentNames(b, g)
  {
    if b == [] {
      assert a + b == a;
    } else {
      var front, h := b[..|b| - 1], b[|b| - 1];
      PresentParts(a, front, g);
      assert (a + b)[..|a + b| - 1] == a + front && (a + b)[|a + b| - 1] == h;
      Assoc(PresentValues(a, g), PresentValues(front, g), [g.Get(h)]);
      Assoc(PresentNames(a, g), PresentNames(front, g), [h]);
    }
  }

  lemma Assoc<T>(a: seq<T>, b: seq<T>, c: seq<T>)
    ensures (a + b) + c == a + (b + c)
  {
  }

  lemma {:induction false} ConcatParts(a: seq<string>, b: seq<string>)
    ensures Concat(a + b) == Concat(a) + Concat(b)
  {
    if b == [] {
      assert a + b == a;
    } else {
      var front, n := b[..|b| - 1], b[|b| - 1];
      ConcatParts(a, front);
      assert (a + b)[..|a + b| - 1] == a + front && (a + b)[|a + b| - 1] == n;
      Assoc(Concat(a), Concat(front), n);
    }
  }

  /**
   How a key and the names in its message are put together: header by header, in the
   rule's order, a dot and the value, and the name, of each one that is present.
   */
  lemma KeyParts(headers: seq<string>, h: string, g: Getter)
    ensures KeyOf([], g) == "" && NamesOf([], g) == ""
    ensures KeyOf(headers + [h], g) == KeyOf(headers, g) + if g.Get(h) == "" then "" else "." + g.Get(h)
    ensures NamesOf(headers + [h], g) == NamesOf(headers, g) + if g.Get(h) == "" then "" else h
  {
    PresentParts(headers, [h], g);
    PresentOne(h, g);
    JoinKeySnoc(PresentValues(headers, g), g.Get(h));
    ConcatParts(PresentNames(headers, g), [h]);
    assert [h][..0] == [] && Concat([h]) == "" + h == h;
    hide Concat, JoinKey;
  }

  /** No listed header is present exactly when every one reads as empty. */
  lemma {:induction false} NonePresent(headers: seq<string>, g: Getter)
    ensures PresentValues(headers, g) == [] <==> forall h :: h in headers ==> g.Get(h) == ""
  {
    if headers != [] {
      NonePresent(headers[..|headers| - 1], g);
      assert forall h :: h in headers <==> h in headers[..|headers| - 1] || h == headers[|headers| - 1];
    }
  }

  /** The limit of a request that is counted under a rule with these headers and numbers. */
  ghost predicate CountedUnder(v: LimitValue, headers: seq<string>, quota: int, duration: int, g: Getter) {
    if quota < 0 || (forall h :: h in headers ==> g.Get(h) == "") then
      v == LimitValue("", "", 0, -1)
    else
      v.quota == quota && v.duration == duration && v.key != ""
      && v.key == KeyOf(headers, g)
      && v.message == "trace key " + NamesOf(headers, g) + ", limit key " + v.key
  }

  lemma QuotaAnswers(rule: Rule, g: Getter)
    ensures CountedUnder(Quota(rule, g), rule.headers, rule.quota, rule.duration, g)
  {
    NonePresent(rule.headers, g);
    JoinKeyEmpty(PresentValues(rule.headers, g));
  }

  /**
   Every answer of `Match`: no limit (-1) when disabled; forbidden (0, without a key)
   when some block entry's value is what the getter reads, with the first such entry
   in the message; else the limit of the first rule in order whose prefix the path
   has, or of the default when there is none.
   */
  lemma MatchAnswers(r: RouterLimit, path: string, g: Getter)
    ensures var v := MatchOf(r, path, g);
            if r.disabled then v == LimitValue("", "", 0, -1)
            else if exists b :: b in r.block && BlockedBy(b, g) then
              && v.quota == 0 && v.key == "" && v.duration == 0
              && exists i :: 0 <= i < |r.block| && BlockedBy(r.block[i], g)
                             && (forall j :: 0 <= j < i ==> !BlockedBy(r.block[j], g))
                             && v.message == (if "x-" <= r.block[i].key then r.block[i].key[2..] else r.block[i].key)
                                             + " [ " + r.block[i].value + " ] is in the blacklist"
            else
              && (forall i :: 0 <= i < |r.rules| && r.rules[i].prefix <= path
                              && (forall j :: 0 <= j < i ==> !(r.rules[j].prefix <= path)) ==>
                    CountedUnder(v, r.rules[i].headers, r.rules[i].quota, r.rules[i].duration, g))
              && ((forall i :: 0 <= i < |r.rules| ==> !(r.rules[i].prefix <= path)) ==>
                    CountedUnder(v, r.default.headers, r.default.quota, r.default.duration, g))
  {
    var b := FirstBlock(r.block, g);
    if b < |r.block| {
      assert r.block[b] in r.block && BlockedBy(r.block[b], g);
    } else {
      QuotaAnswers(SelectedRule(r, path), g);
      hide CountedUnder, Quota;
    }
  }

  // What a match depends on.

  ghost predicate AgreeOn(g: Getter, h: Getter, keys: seq<string>) {
    forall k :: k in keys ==> g.Get(k) == h.Get(k)
  }

  lemma {:induction false} PresentDepends(headers: seq<string>, g: Getter, h: Getter)
    requires AgreeOn(g, h, headers)
    ensures PresentValues(headers, g) == PresentValues(headers, h)
    ensures PresentNames(headers, g) == PresentNames(headers, h)
  {
    if headers != [] {
      PresentDepends(headers[..|headers| - 1], g, h);
      assert headers[|headers| - 1] in headers;
    }
  }

  /**
   The result depends on the request only through the keys of the block list and the
   headers of the selected rule, so a map and a header that agree there match alike.
   */
  lemma MatchDependsOnKeys(r: RouterLimit, path: string, g: Getter, h: Getter)
    requires forall b :: b in r.block ==> g.Get(b.key) == h.Get(b.key)
    requires AgreeOn(g, h, SelectedRule(r, path).headers)
    ensures MatchOf(r, path, g) == MatchOf(r, path, h)
  {
    PresentDepends(SelectedRule(r, path).headers, g, h);
    forall i | 0 <= i < |r.block|
      ensures g.Get(r.block[i].key) == h.Get(r.block[i].key)
    {
      assert r.block[i] in r.block;
    }
    assert FirstBlock(r.block, g) == FirstBlock(r.block, h);
  }

  // Injectivity of the key.

  predicate DotFree(v: string) {
    '.' !in v
  }

  /** The last value of a key of dot-free values is what follows its last dot. */
  lemma {:induction false} LastValueUnique(a: string, v: string, b: string, w: string)
    requires DotFree(v) && DotFree(w) && a + ("." + v) == b + ("." + w)
    ensures a == b && v == w
  {
    var s := a + ("." + v);
    assert forall i :: |a| < i < |s| ==> s[i] == v[i - |a| - 1];
    assert forall i :: |b| < i < |s| ==> s[i] == w[i - |b| - 1];
    assert s[|a|] == '.' && s[|b|] == '.';
    assert |a| == |b|;
    assert a == s[..|a|] && b == s[..|b|] && v == s[|a| + 1..] && w == s[|b| + 1..];
  }

  lemma {:induction false} JoinKeyInjective(vs: seq<string>, ws: seq<string>)
    requires (forall v :: v in vs ==> DotFree(v)) && (forall w :: w in ws ==> DotFree(w))
    ensures JoinKey(vs) == JoinKey(ws) <==> vs == ws
    decreases |vs|
  {
    JoinKeyEmpty(vs);
    JoinKeyEmpty(ws);
    if vs != [] && ws != [] && JoinKey(vs) == JoinKey(ws) {
      var m, n := |vs| - 1, |ws| - 1;
      LastValueUnique(JoinKey(vs[..m]), vs[m], JoinKey(ws[..n]), ws[n]);
      JoinKeyInjective(vs[..m], ws[..n]);
      assert vs == vs[..m] + [vs[m]] && ws == ws[..n] + [ws[n]];
    }
  }

  ghost predicate DotFreeOn(headers: seq<string>, g: Getter) {
    forall h :: h in headers ==> DotFree(g.Get(h))
  }

  lemma {:induction false} PresentDotFree(headers: seq<string>, g: Getter)
    requires DotFreeOn(headers, g)
    ensures forall v :: v in PresentValues(headers, g) ==> DotFree(v)
  {
    if headers != [] {
      PresentDotFree(headers[..|headers| - 1], g);
      assert headers[|headers| - 1] in headers;
    }
  }

  ghost predicate SamePresence(headers: seq<string>, g: Getter, h: Getter) {
    forall k :: k in headers ==> (g.Get(k) == "" <==> h.Get(k) == "")
  }

  lemma {:induction false} SameValues(headers: seq<string>, g: Getter, h: Getter)
    requires SamePresence(headers, g, h)
    ensures |PresentValues(headers, g)| == |PresentValues(headers, h)|
    ensures PresentValues(headers, g) == PresentValues(headers, h) ==> AgreeOn(g, h, headers)
  {
    if headers != [] {
      var front, last := headers[..|headers| - 1], headers[|headers| - 1];
      assert headers == front + [last];
      SameValues(front, g, h);
      var a, b := PresentValues(front, g), PresentValues(front, h);
      if PresentValues(headers, g) == PresentValues(headers, h) && g.Get(last) != "" {
        assert (a + [g.Get(last)])[..|a|] == a && (b + [h.Get(last)])[..|b|] == b;
        assert (a + [g.Get(last)])[|a|] == g.Get(last) && (b + [h.Get(last)])[|b|] == h.Get(last);
      }
    }
  }

  predicate Blocked(r: RouterLimit, g: Getter) {
    FirstBlock(r.block, g) < |r.block|
  }

  /**
   Two unblocked requests under the same counting rule, with the same listed headers
   present (at least one) and dot-free values, share their key exactly when all
   those values are equal.
   */
  lemma KeysSeparateRequests(r: RouterLimit, p: string, q: string, g: Getter, h: Getter)
    requires !r.disabled && !Blocked(r, g) && !Blocked(r, h)
    requires SelectedRule(r, p) == SelectedRule(r, q) && SelectedRule(r, p).quota >= 0
    requires var headers := SelectedRule(r, p).headers;
             SamePresence(headers, g, h) && PresentValues(headers, g) != []
             && DotFreeOn(headers, g) && DotFreeOn(headers, h)
    ensures MatchOf(r, p, g).key == MatchOf(r, q, h).key <==> AgreeOn(g, h, SelectedRule(r, p).headers)
    ensures MatchOf(r, p, g).quota == SelectedRule(r, p).quota
  {
    var headers := SelectedRule(r, p).headers;
    PresentDotFree(headers, g);
    PresentDotFree(headers, h);
    SameValues(headers, g, h);
    JoinKeyInjective(PresentValues(headers, g), PresentValues(headers, h));
    if AgreeOn(g, h, headers) {
      PresentDepends(headers, g, h);
    }
  }

  // When keys collide.

  /** A value cut at its dots. */
  function Split(v: string): (ss: seq<string>)
    ensures ss != []
  {
    if v == "" then [""]
    else
      var ss, c := Split(v[..|v| - 1]), v[|v| - 1];
      if c == '.' then ss + [""] else ss[..|ss| - 1] + [ss[|ss| - 1] + [c]]
  }

  /** All values of a request, cut at their dots. */
  function Segments(vs: seq<string>): seq<string> {
    if vs == [] then [] else Segments(vs[..|vs| - 1]) + Split(vs[|vs| - 1])
  }

  lemma {:induction false} SplitDotFree(v: string)
    ensures forall s :: s in Split(v) ==> DotFree(s)
    ensures DotFree(v) ==> Split(v) == [v]
  {
    if v != "" {
      SplitDotFree(v[..|v| - 1]);
      assert v == v[..|v| - 1] + [v[|v| - 1]];
      var ss := Split(v[..|v| - 1]);
      assert ss[|ss| - 1] in ss;
      assert forall s :: s in ss[..|ss| - 1] ==> s in ss;
    }
  }

  lemma {:induction false} SegmentsDotFree(vs: seq<string>)
    ensures forall s :: s in Segments(vs) ==> DotFree(s)
  {
    if vs != [] {
      SegmentsDotFree(vs[..|vs| - 1]);
      SplitDotFree(vs[|vs| - 1]);
    }
  }

  lemma JoinKeySnoc(vs: seq<string>, v: string)
    ensures JoinKey(vs + [v]) == JoinKey(vs) + ("." + v)
  {
    assert (vs + [v])[..|vs|] == vs;
  }

  lemma {:induction false} JoinKeyConcat(vs: seq<string>, ws: seq<string>)
    ensures JoinKey(vs + ws) == JoinKey(vs) + JoinKey(ws)
  {
    if ws == [] {
      assert vs + ws == vs;
    } else {
      var n := |ws| - 1;
      JoinKeyConcat(vs, ws[..n]);
      JoinKeySnoc(vs + ws[..n], ws[n]);
      JoinKeySnoc(ws[..n], ws[n]);
      assert ws == ws[..n] + [ws[n]];
      Assoc(vs, ws[..n], [ws[n]]);
      Assoc(JoinKey(vs), JoinKey(ws[..n]), "." + ws[n]);
      hide JoinKey;
    }
  }

  /** A character at the end of the last value is a character at the end of the key. */
  lemma JoinKeyGrows(ss: seq<string>, c: char)
    requires ss != []
    ensures var n := |ss| - 1; JoinKey(ss[..n] + [ss[n] + [c]]) == JoinKey(ss) + [c]
  {
    var n := |ss| - 1;
    JoinKeySnoc(ss[..n], ss[n] + [c]);
    hide JoinKey;
    AppendChar(JoinKey(ss[..n]), ss[n], c);
  }

  lemma AppendChar(key: string, v: string, c: char)
    ensures key + ("." + (v + [c])) == key + ("." + v) + [c]
  {
  }

  lemma LastChar(v: string)
    requires v != ""
    ensures "." + v == ("." + v[..|v| - 1]) + [v[|v| - 1]]
  {
  }

  lemma {:induction false} SplitJoins(v: string)
    ensures JoinKey(Split(v)) == "." + v
  {
    if v == "" {
      JoinKeySnoc([], "");
      assert [] + [""] == [""];
    } else {
      SplitJoins(v[..|v| - 1]);
      LastChar(v);
      JoinKeySnoc(Split(v[..|v| - 1]), "");
      JoinKeyGrows(Split(v[..|v| - 1]), v[|v| - 1]);
      hide JoinKey;
    }
  }

  lemma {:induction false} SegmentsJoin(vs: seq<string>)
    ensures JoinKey(Segments(vs)) == JoinKey(vs)
  {
    if vs != [] {
      SegmentsJoin(vs[..|vs| - 1]);
      SplitJoins(vs[|vs| - 1]);
      JoinKeyConcat(Segments(vs[..|vs| - 1]), Split(vs[|vs| - 1]));
    }
  }

  /** Two lists of values make the same key exactly when they have the same dot-free segments in order. */
  lemma KeysEqualIffSameSegments(vs: seq<string>, ws: seq<string>)
    ensures JoinKey(vs) == JoinKey(ws) <==> Segments(vs) == Segments(ws)
  {
    SegmentsJoin(vs);
    SegmentsJoin(ws);
    SegmentsDotFree(vs);
    SegmentsDotFree(ws);
    JoinKeyInjective(Segments(vs), Segments(ws));
  }

  /** Two unblocked requests under one counting rule share their key exactly when their segments agree. */
  lemma RequestsShareKeyIff(r: RouterLimit, p: string, q: string, g: Getter, h: Getter)
    requires !r.disabled && !Blocked(r, g) && !Blocked(r, h)
    requires SelectedRule(r, p) == SelectedRule(r, q) && SelectedRule(r, p).quota >= 0
    ensures var headers := SelectedRule(r, p).headers;
            MatchOf(r, p, g).key == MatchOf(r, q, h).key
            <==> Segments(PresentValues(headers, g)) == Segments(PresentValues(headers, h))
  {
    var headers := SelectedRule(r, p).headers;
    KeysEqualIffSameSegments(PresentValues(headers, g), PresentValues(headers, h));
  }

  // Which rules separate all requests.

  /** Some listed header is present, so the request has a key. */
  predicate Counted(rule: Rule, g: Getter) {
    PresentValues(rule.headers, g) != []
  }

  predicate ShareKey(rule: Rule, g: Getter, h: Getter) {
    Quota(rule, g).key == Quota(rule, h).key
  }

  /** Requests counted under the rule, with the same headers present, share a key only if they agree on its headers. */
  ghost predicate Separates(rule: Rule) {
    forall g, h :: Counted(rule, g) && Counted(rule, h) && SamePresence(rule.headers, g, h) && ShareKey(rule, g, h)
                   ==> AgreeOn(g, h, rule.headers)
  }

  /** The same of all requests counted under the rule, whichever headers are present. */
  ghost predicate SeparatesAll(rule: Rule) {
    forall g, h :: Counted(rule, g) && Counted(rule, h) && ShareKey(rule, g, h) ==> AgreeOn(g, h, rule.headers)
  }

  predicate OneHeader(headers: seq<string>) {
    forall i, j :: 0 <= i < j < |headers| ==> headers[i] == headers[j]
  }

  lemma KeyOfNext(headers: seq<string>, g: Getter)
    requires headers != []
    ensures var v := g.Get(headers[|headers| - 1]);
            KeyOf(headers, g) == KeyOf(headers[..|headers| - 1], g) + if v == "" then "" else "." + v
  {
    var front := headers[..|headers| - 1];
    JoinKeySnoc(PresentValues(front, g), g.Get(headers[|headers| - 1]));
  }

  lemma EqualTails(a: string, v: string, b: string, w: string)
    ensures |v| == |w| && a + ("." + v) == b + ("." + w) ==> v == w
  {
    if |v| == |w| && a + ("." + v) == b + ("." + w) {
      assert |a| == |b|;
      assert v == (a + ("." + v))[|a| + 1..] && w == (b + ("." + w))[|b| + 1..];
    }
  }

  /** With one header only, a longer value makes a longer key, and equal keys end in equal values. */
  lemma {:induction false} OneHeaderKeys(headers: seq<string>, k: string, g: Getter, h: Getter)
    requires headers != [] && (forall i :: 0 <= i < |headers| ==> headers[i] == k)
    requires g.Get(k) != "" && h.Get(k) != ""
    ensures |g.Get(k)| < |h.Get(k)| ==> |KeyOf(headers, g)| < |KeyOf(headers, h)|
    ensures |g.Get(k)| == |h.Get(k)| && KeyOf(headers, g) == KeyOf(headers, h) ==> g.Get(k) == h.Get(k)
  {
    KeyOfNext(headers, g);
    KeyOfNext(headers, h);
    var front := headers[..|headers| - 1];
    if front != [] {
      OneHeaderKeys(front, k, g, h);
    }
    assert front == [] ==> KeyOf(front, g) == KeyOf(front, h) == "";
    hide *;
    EqualTails(KeyOf(front, g), g.Get(k), KeyOf(front, h), h.Get(k));
  }

  lemma {:induction false} PresentWhenOne(headers: seq<string>, k: string, g: Getter)
    requires forall i :: 0 <= i < |headers| ==> headers[i] == k
    ensures PresentValues(headers, g) != [] <==> headers != [] && g.Get(k) != ""
  {
    if headers != [] {
      PresentWhenOne(headers[..|headers| - 1], k, g);
    }
  }

  lemma OneHeaderSeparates(rule: Rule)
    requires rule.quota >= 0 && OneHeader(rule.headers)
    ensures SeparatesAll(rule)
  {
    var headers := rule.headers;
    forall g, h | Counted(rule, g) && Counted(rule, h) && ShareKey(rule, g, h)
      ensures AgreeOn(g, h, headers)
    {
      var k := headers[0];
      PresentWhenOne(headers, k, g);
      PresentWhenOne(headers, k, h);
      OneHeaderKeys(headers, k, g, h);
      OneHeaderKeys(headers, k, h, g);
    }
  }

  function Count(headers: seq<string>, k: string): nat {
    if headers == [] then 0
    else Count(headers[..|headers| - 1], k) + if headers[|headers| - 1] == k then 1 else 0
  }

  lemma {:induction false} CountPositive(headers: seq<string>, k: string)
    requires k in headers
    ensures Count(headers, k) > 0
  {
    if headers[|headers| - 1] != k {
      CountPositive(headers[..|headers| - 1], k);
    }
  }

  function Dots(n: nat): string {
    seq(n, _ => '.')
  }

  /** A request with two headers whose values consist of dots. */
  function Dotted(a: string, m: nat, b: string, n: nat): Getter {
    HeaderGetter(map[a := [Dots(m)], b := [Dots(n)]])
  }

  lemma DottedGet(a: string, m: nat, b: string, n: nat, k: string)
    requires a != b
    ensures Dotted(a, m, b, n).Get(k) == if k == a then Dots(m) else if k == b then Dots(n) else ""
  {
  }

  /** How many dots a request's key has. */
  function DotCount(headers: seq<string>, a: string, m: nat, b: string, n: nat): nat {
    Count(headers, a) * (m + 1) + Count(headers, b) * (n + 1)
  }

  lemma DotCountNext(headers: seq<string>, a: string, m: nat, b: string, n: nat)
    requires headers != [] && a != b
    ensures var front, last := headers[..|headers| - 1], headers[|headers| - 1];
            DotCount(headers, a, m, b, n)
            == DotCount(front, a, m, b, n) + if last == a then m + 1 else if last == b then n + 1 else 0
  {
  }

  /** Its key consists of dots too, and only their number matters. */
  lemma {:induction false} DottedKey(headers: seq<string>, a: string, m: nat, b: string, n: nat)
    requires a != b && m > 0 && n > 0
    ensures KeyOf(headers, Dotted(a, m, b, n)) == Dots(DotCount(headers, a, m, b, n))
  {
    if headers != [] {
      var g, front, last := Dotted(a, m, b, n), headers[..|headers| - 1], headers[|headers| - 1];
      DottedKey(front, a, m, b, n);
      KeyOfNext(headers, g);
      DotCountNext(headers, a, m, b, n);
      DottedGet(a, m, b, n, last);
      hide *;
      DotsMore(DotCount(front, a, m, b, n), m);
      DotsMore(DotCount(front, a, m, b, n), n);
    }
  }

  lemma DotsMore(c: nat, m: nat)
    ensures Dots(c) + "" == Dots(c)
    ensures Dots(c) + ("." + Dots(m)) == Dots(c + (m + 1))
    ensures m > 0 ==> Dots(m) != ""
  {
  }

  lemma CrossTerms(i: nat, j: nat)
    ensures i * (j + 2) + j * 2 == i * 2 + j * (i + 2)
  {
  }

  lemma {:induction false} PresentMember(headers: seq<string>, k: string, g: Getter)
    requires k in headers && g.Get(k) != ""
    ensures PresentValues(headers, g) != []
  {
    if headers[|headers| - 1] != k {
      PresentMember(headers[..|headers| - 1], k, g);
    }
  }

  /** Two headers listed i and j times collide: one gets j dots more than it had, the other i. */
  lemma TwoHeadersCollide(rule: Rule, a: string, b: string) returns (g: Getter, h: Getter)
    requires rule.quota >= 0 && a in rule.headers && b in rule.headers && a != b
    ensures Counted(rule, g) && Counted(rule, h) && SamePresence(rule.headers, g, h)
    ensures ShareKey(rule, g, h) && !AgreeOn(g, h, rule.headers)
  {
    var headers := rule.headers;
    var i, j := Count(headers, a), Count(headers, b);
    CountPositive(headers, a);
    CountPositive(headers, b);
    g, h := Dotted(a, j + 1, b, 1), Dotted(a, 1, b, i + 1);
    DottedKey(headers, a, j + 1, b, 1);
    DottedKey(headers, a, 1, b, i + 1);
    CrossTerms(i, j);
    QuotaKey(rule, g);
    QuotaKey(rule, h);
    DottedPresence(headers, a, j + 1, 1, b, 1, i + 1);
    hide Quota, KeyOf, Dotted, Count, SamePresence, AgreeOn, PresentValues, Dots;
  }

  lemma QuotaKey(rule: Rule, g: Getter)
    requires rule.quota >= 0
    ensures Quota(rule, g).key == KeyOf(rule.headers, g)
  {
  }

  lemma DottedPresence(headers: seq<string>, a: string, m: nat, m': nat, b: string, n: nat, n': nat)
    requires a in headers && a != b && m > 0 && m' > 0 && n > 0 && n' > 0 && m != m'
    ensures var g, h := Dotted(a, m, b, n), Dotted(a, m', b, n');
            && PresentValues(headers, g) != [] && PresentValues(headers, h) != []
            && SamePresence(headers, g, h) && !AgreeOn(g, h, headers)
  {
    var g, h := Dotted(a, m, b, n), Dotted(a, m', b, n');
    forall k
      ensures g.Get(k) == if k == a then Dots(m) else if k == b then Dots(n) else ""
      ensures h.Get(k) == if k == a then Dots(m') else if k == b then Dots(n') else ""
    {
      DottedGet(a, m, b, n, k);
      DottedGet(a, m', b, n', k);
    }
    assert |Dots(m)| == m && |Dots(m')| == m';
    hide Dotted, Getter.Get;
    PresentMember(headers, a, g);
    PresentMember(headers, a, h);
  }

  /**
   A counting rule separates requests exactly when it lists at most one distinct
   header; it makes no difference whether only requests with the same headers
   present are compared.
   */
  lemma SeparatesIffOneHeader(rule: Rule)
    requires rule.quota >= 0
    ensures Separates(rule) <==> OneHeader(rule.headers)
    ensures SeparatesAll(rule) <==> OneHeader(rule.headers)
  {
    if OneHeader(rule.headers) {
      OneHeaderSeparates(rule);
    } else {
      var i, j :| 0 <= i < j < |rule.headers| && rule.headers[i] != rule.headers[j];
      var g, h := TwoHeadersCollide(rule, rule.headers[i], rule.headers[j]);
    }
  }

  lemma KeyOfTwo(g: Getter, a: string, b: string)
    ensures KeyOf([a, b], g)
            == (if g.Get(a) == "" then "" else "." + g.Get(a)) + (if g.Get(b) == "" then "" else "." + g.Get(b))
  {
    assert [a, b][..1] == [a] && [a][..0] == [];
    KeyOfNext([a, b], g);
    KeyOfNext([a], g);
    assert KeyOf([], g) == "";
    assert "" + ("." + g.Get(a)) == "." + g.Get(a);
  }

  lemma ExampleKey(users: seq<string>, ips: seq<string>)
    ensures var r := RouterLimit([Rule("/", ["x-user", "x-ip"], 5, 1)], [], Default([], NO_LIMIT, 0), false);
            MatchOf(r, "/a", HeaderGetter(map["x-user" := users, "x-ip" := ips])).key
            == (if users == [] || users[0] == "" then "" else "." + users[0])
               + (if ips == [] || ips[0] == "" then "" else "." + ips[0])
  {
    var rule, g := Rule("/", ["x-user", "x-ip"], 5, 1), HeaderGetter(map["x-user" := users, "x-ip" := ips]);
    var r := RouterLimit([rule], [], Default([], NO_LIMIT, 0), false);
    assert SelectedRule(r, "/a") == rule;
    assert MatchOf(r, "/a", g).key == KeyOf(rule.headers, g);
    assert g.Get("x-user") == (if users == [] then "" else users[0]) && g.Get("x-ip") == (if ips == [] then "" else ips[0]);
    hide *;
    KeyOfTwo(g, "x-user", "x-ip");
  }

  /**
   Different requests that share a key under a rule with two headers: with the same
   headers present, through a dot in a value, and with different headers present.
   */
  lemma KeysCanCollide()
    ensures var r := RouterLimit([Rule("/", ["x-user", "x-ip"], 5, 1)], [], Default([], NO_LIMIT, 0), false);
            && MatchOf(r, "/a", HeaderGetter(map["x-user" := ["a.b", "z"], "x-ip" := ["c"]])).key == ".a.b.c"
            && MatchOf(r, "/a", HeaderGetter(map["x-user" := ["a"], "x-ip" := ["b.c"]])).key == ".a.b.c"
            && MatchOf(r, "/a", HeaderGetter(map["x-user" := ["a"], "x-ip" := []])).key == ".a"
            && MatchOf(r, "/a", HeaderGetter(map["x-user" := [], "x-ip" := ["a"]])).key == ".a"
  {
    hide *;
    ExampleKey(["a.b", "z"], ["c"]);
    ExampleKey(["a"], ["b.c"]);
    ExampleKey(["a"], []);
    ExampleKey([], ["a"]);
  }
}
