/** The --scope-map flag: "src:tgt1+tgt2,src2:tgt3" (cmd/authserver/admin_fronting.go:246-292). */
module ScopeMapFlag {
  import opened Options
  import opened Text

  type ScopeMap = map<string, seq<string>>

  function Targets(m: ScopeMap, src: string): seq<string> {
    if src in m then m[src] else []
  }

  function Add(m: ScopeMap, src: string, ts: seq<string>): ScopeMap {
    if |ts| == 0 then m else m[src := Targets(m, src) + ts]
  }

  function TrimAll(parts: seq<string>): (ts: seq<string>)
    ensures |ts| == |parts| && forall i :: 0 <= i < |parts| ==> ts[i] == TrimSpace(parts[i])
  {
    if |parts| == 0 then [] else [TrimSpace(parts[0])] + TrimAll(parts[1..])
  }

  datatype Entry = Blank | Malformed | Pair(src: string, tgts: seq<string>)

  /** One comma-separated entry. */
  function ReadEntry(raw: string): Entry {
    var e := TrimSpace(raw);
    if e == "" then Blank
    else
      var colon := IndexOf(e, ':');
      if colon <= 0 then Malformed else ReadPair(TrimSpace(e[..colon]), TrimSpace(e[colon + 1..]))
  }

  function ReadPair(src: string, tgts: string): Entry {
    if src == "" || tgts == "" then Malformed
    else
      var ts := TrimAll(Split(tgts, '+'));
      if "" in ts then Malformed else Pair(src, ts)
  }

  /** Entries read left to right onto a map. */
  function Fold(entries: seq<string>, m: ScopeMap): Option<ScopeMap> {
    if entries == [] then Some(m)
    else
      match ReadEntry(entries[0])
      case Blank => Fold(entries[1..], m)
      case Malformed => None
      case Pair(src, ts) => Fold(entries[1..], Add(m, src, ts))
  }

  /** What the flag text means; None is every rejection. */
  function Parse(raw: string): Option<ScopeMap> {
    if TrimSpace(raw) == "" then None
    else
      match Fold(Split(raw, ','), map[])
      case None => None
      case Some(m) => if m == map[] then None else Some(m)
  }

  // ---------------------------------------------------------------------------
  // The parser

  /** The inner loop: one entry's targets, appended to the list of its key. */
  method AppendTargets(m: ScopeMap, src: string, tgts: string) returns (ok: bool, out: ScopeMap)
    ensures ok <==> "" !in TrimAll(Split(tgts, '+'))
    ensures ok ==> out == Add(m, src, TrimAll(Split(tgts, '+')))
  {
    var parts := Split(tgts, '+');
    ghost var ts := TrimAll(parts);
    out := m;
    for j := 0 to |parts|
      invariant out == Add(m, src, ts[..j])
      invariant "" !in ts[..j]
    {
      var t := TrimSpace(parts[j]);
      assert ts[j] == t && ts[..j + 1] == ts[..j] + [t];
      if t == "" {
        return false, out;
      }
      AddOne(m, src, ts[..j], t);
      out := out[src := Targets(out, src) + [t]];
    }
    assert ts[..|parts|] == ts;
    ok := true;
  }

  lemma AddOne(m: ScopeMap, src: string, ts: seq<string>, t: string)
    ensures Add(m, src, ts)[src := Targets(Add(m, src, ts), src) + [t]] == Add(m, src, ts + [t])
  {
    assert (Targets(m, src) + ts) + [t] == Targets(m, src) + (ts + [t]);
    if |ts| == 0 { assert ts + [t] == [t]; }
  }

  /** What became of the map after one entry. */
  predicate Entered(e: Entry, m: ScopeMap, ok: bool, out: ScopeMap) {
    match e
    case Blank => ok && out == m
    case Malformed => !ok
    case Pair(src, ts) => ok && out == Add(m, src, ts)
  }

  method PairInto(m: ScopeMap, src: string, tgts: string) returns (ok: bool, out: ScopeMap)
    ensures Entered(ReadPair(src, tgts), m, ok, out)
  {
    if src == "" {
      return false, m;
    }
    if tgts == "" {
      return false, m;
    }
    ok, out := AppendTargets(m, src, tgts);
  }

  /** The body of the outer loop. */
  method ReadInto(m: ScopeMap, raw: string) returns (ok: bool, out: ScopeMap)
    ensures Entered(ReadEntry(raw), m, ok, out)
  {
    var entry := TrimSpace(raw);
    if entry == "" {
      return true, m;
    }
    var colon := IndexOf(entry, ':');
    if colon <= 0 {
      return false, m;
    }
    var src, tgts := TrimSpace(entry[..colon]), TrimSpace(entry[colon + 1..]);
    assert ReadEntry(raw) == ReadPair(src, tgts);
    ok, out := PairInto(m, src, tgts);
  }

  method ParseScopeMapFlag(raw: string) returns (r: Option<ScopeMap>)
    ensures r == Parse(raw)
  {
    if TrimSpace(raw) == "" {
      return None;
    }
    var out: ScopeMap := map[];
    var entries := Split(raw, ',');
    for i := 0 to |entries|
      invariant Fold(entries, map[]) == Fold(entries[i..], out)
    {
      FoldNext(entries, i, out);
      var ok;
      ok, out := ReadInto(out, entries[i]);
      if !ok {
        return None;
      }
    }
    if out == map[] {
      return None;
    }
    return Some(out);
  }

  lemma FoldNext(entries: seq<string>, i: nat, m: ScopeMap)
    requires i < |entries|
    ensures Fold(entries[i..], m) ==
            match ReadEntry(entries[i])
            case Blank => Fold(entries[i + 1..], m)
            case Malformed => None
            case Pair(src, ts) => Fold(entries[i + 1..], Add(m, src, ts))
  {}

  // ---------------------------------------------------------------------------
  // Entries

  /** An entry that is not blank and has no colon is rejected. */
  lemma NoColonRejected(raw: string)
    requires ':' !in raw && TrimSpace(raw) != ""
    ensures ReadEntry(raw) == Malformed
  {
    var left, right := TrimParts(raw);
    assert forall i :: 0 <= i < |TrimSpace(raw)| ==> TrimSpace(raw)[i] == raw[|left| + i];
  }

  /** An entry is read off its trimmed text. */
  lemma EntryFromTrimmed(raw: string, e: string, colon: nat, src: string, tgts: string)
    requires TrimSpace(raw) == e && e != "" && IndexOf(e, ':') == colon
    requires colon > 0 ==> TrimSpace(e[..colon]) == src && TrimSpace(e[colon + 1..]) == tgts
    ensures ReadEntry(raw) == if colon == 0 then Malformed else ReadPair(src, tgts)
  {}

  lemma PaddedCore(la: string, core: string, rb: string, colon: nat, src: string, tgts: string)
    requires AllSpaces(la) && AllSpaces(rb) && core != "" && !IsSpace(core[0]) && colon > 0
    requires TrimSpace(core) != "" && IndexOf(TrimSpace(core), ':') == colon
    requires TrimSpace(TrimSpace(core)[..colon]) == src && TrimSpace(TrimSpace(core)[colon + 1..]) == tgts
    ensures ReadEntry(la + (core + rb)) == ReadPair(src, tgts)
  {
    TrimLeft(la, core + rb);
    TrimRight(core, rb);
    EntryFromTrimmed(la + (core + rb), TrimSpace(core), colon, src, tgts);
  }

  lemma KeyedPadded(la: string, src: string, ra: string, lb: string, tgts: string, rb: string)
    requires AllSpaces(la) && AllSpaces(ra) && AllSpaces(lb) && AllSpaces(rb)
    requires src != "" && Trimmed(src) && Trimmed(tgts) && ':' !in src
    ensures ReadEntry(la + (src + ra + ":" + lb + tgts + rb)) == ReadPair(src, tgts)
  {
    KeyedEntry(src, ra, lb, tgts);
    PaddedCore(la, src + ra + ":" + lb + tgts, rb, |src + ra|, src, tgts);
  }

  lemma BlankPadded(la: string, ra: string, rest: string)
    requires AllSpaces(la) && AllSpaces(ra)
    ensures ReadEntry(la + (ra + (":" + rest))) == Malformed
  {
    TrimLeft(la, ra + (":" + rest));
    BlankKey(ra, rest);
    EntryFromTrimmed(la + (ra + (":" + rest)), TrimSpace(ra + (":" + rest)), 0, "", "");
  }

  lemma ColonBlank(la: string, ra: string, b: string)
    requires AllSpaces(la) && AllSpaces(ra)
    ensures ReadEntry((la + "" + ra) + ":" + b) == Malformed
  {
    assert (la + "" + ra) + ":" + b == la + (ra + (":" + b));
    BlankPadded(la, ra, b);
  }

  lemma ColonKeyed(la: string, src: string, ra: string, lb: string, tgts: string, rb: string)
    requires AllSpaces(la) && AllSpaces(ra) && AllSpaces(lb) && AllSpaces(rb)
    requires src != "" && Trimmed(src) && Trimmed(tgts) && ':' !in src
    ensures ReadEntry((la + src + ra) + ":" + (lb + tgts + rb)) == ReadPair(src, tgts)
  {
    KeyedPadded(la, src, ra, lb, tgts, rb);
    Rebracket(la, src, ra, lb, tgts, rb);
  }

  lemma Rebracket(la: string, src: string, ra: string, lb: string, tgts: string, rb: string)
    ensures (la + src + ra) + ":" + (lb + tgts + rb) == la + (src + ra + ":" + lb + tgts + rb)
  {}

  lemma PartHas(left: string, m: string, right: string, c: char)
    ensures c in m ==> c in left + m + right
  {
    assert forall i :: 0 <= i < |m| ==> (left + m + right)[|left| + i] == m[i];
  }

  /** Rejected if either side or one target is blank; otherwise the key with the trimmed targets in order. */
  ghost predicate ReadsAs(e: Entry, src: string, tgts: string) {
    var parts := Split(tgts, '+');
    if src == "" || tgts == "" || exists i :: 0 <= i < |parts| && TrimSpace(parts[i]) == "" then e == Malformed
    else
      && e.Pair? && e.src == src && |e.tgts| == |parts|
      && forall i :: 0 <= i < |parts| ==> e.tgts[i] == TrimSpace(parts[i])
  }

  lemma PairExact(src: string, tgts: string)
    ensures ReadsAs(ReadPair(src, tgts), src, tgts)
  {
    var parts := Split(tgts, '+');
    assert "" in TrimAll(parts) <==> exists i :: 0 <= i < |parts| && TrimSpace(parts[i]) == "";
  }

  /** An entry with a colon reads as what stands before the first colon and after it, both trimmed. */
  lemma ColonEntry(a: string, b: string)
    requires ':' !in a
    ensures ReadsAs(ReadEntry(a + ":" + b), TrimSpace(a), TrimSpace(b))
  {
    ColonSides(a, b);
    PairExact(TrimSpace(a), TrimSpace(b));
  }

  /** Spaces around an entry, and around its key and its targets, do not matter. */
  lemma ColonSides(a: string, b: string)
    requires ':' !in a
    ensures ReadEntry(a + ":" + b) == ReadPair(TrimSpace(a), TrimSpace(b))
  {
    var la, ra := TrimParts(a);
    if TrimSpace(a) == "" {
      ColonBlank(la, ra, b);
    } else {
      var lb, rb := TrimParts(b);
      PartHas(la, TrimSpace(a), ra, ':');
      ColonKeyed(la, TrimSpace(a), ra, lb, TrimSpace(b), rb);
    }
  }

  lemma BlankKey(spaces: string, rest: string)
    requires AllSpaces(spaces)
    ensures var e := TrimSpace(spaces + (":" + rest)); e != "" && IndexOf(e, ':') == 0
  {
    TrimLeft(spaces, ":" + rest);
    var left, right := TrimParts(":" + rest);
    var e := TrimSpace(":" + rest);
    assert (":" + rest)[0] == ':';
    assert left == "";
    assert e != "" && e[0] == ':';
  }

  /** The first colon cuts a trimmed entry in two. */
  lemma HeadAndTail(head: string, tail: string)
    requires head != "" && !IsSpace(head[0]) && ':' !in head && (tail != "" ==> !IsSpace(tail[|tail| - 1]))
    ensures var e := head + [':'] + tail;
            TrimSpace(e) == e && IndexOf(e, ':') == |head| && e[..|head|] == head && e[|head| + 1..] == tail
  {
    var e := head + [':'] + tail;
    assert e[0] == head[0] && e[|e| - 1] == if tail == "" then ':' else tail[|tail| - 1];
    IndexOfFirst(head, ':', tail);
  }

  lemma HeadAlone(head: string)
    requires head != "" && !IsSpace(head[0]) && ':' !in head
    ensures var e := head + [':'];
            TrimSpace(e) == e && IndexOf(e, ':') == |head| && e[..|head|] == head && e[|head| + 1..] == ""
  {
    HeadAndTail(head, "");
    assert head + [':'] + "" == head + [':'];
  }

  lemma NoTargets(head: string, lb: string)
    requires head != "" && !IsSpace(head[0]) && AllSpaces(lb) && ':' !in head
    ensures TrimSpace(head + [':'] + lb) == head + [':']
  {
    HeadAlone(head);
    TrimRight(head + [':'], lb);
  }

  /** The trimmed entry when its key is not blank. */
  lemma KeyedEntry(src: string, ra: string, lb: string, tgts: string)
    requires src != "" && Trimmed(src) && AllSpaces(ra) && AllSpaces(lb) && Trimmed(tgts) && ':' !in src
    ensures var core := src + ra + ":" + lb + tgts;
            var e := TrimSpace(core);
            && e != "" && IndexOf(e, ':') == |src + ra|
            && TrimSpace(e[..|src + ra|]) == src && TrimSpace(e[|src + ra| + 1..]) == tgts
  {
    var head := src + ra;
    TrimRight(src, ra);
    if tgts == "" {
      assert src + ra + ":" + lb + tgts == head + [':'] + lb;
      NoTargets(head, lb);
      HeadAlone(head);
    } else {
      assert src + ra + ":" + lb + tgts == head + [':'] + (lb + tgts);
      HeadAndTail(head, lb + tgts);
      TrimLeft(lb, tgts);
    }
  }

  /** A text without a comma is one entry, and is accepted exactly if that is a pair. */
  lemma SingleEntry(raw: string)
    requires ',' !in raw
    ensures Parse(raw) == if ReadEntry(raw).Pair? then Some(map[ReadEntry(raw).src := ReadEntry(raw).tgts]) else None
  {
    assert Split(raw, ',') == [raw];
    assert [raw][1..] == [];
    if ReadEntry(raw).Pair? {
      var src, ts := ReadEntry(raw).src, ReadEntry(raw).tgts;
      assert Targets(map[], src) + ts == ts;
      assert Fold([raw], map[]) == Fold([raw][1..], Add(map[], src, ts));
    }
  }

  // ---------------------------------------------------------------------------
  // Concatenation

  /** Key-wise concatenation of target lists. */
  function Merge(a: ScopeMap, b: ScopeMap): ScopeMap {
    map k | k in a.Keys + b.Keys :: Targets(a, k) + Targets(b, k)
  }

  lemma SameTargets(a: ScopeMap, b: ScopeMap)
    requires a.Keys == b.Keys && forall k :: Targets(a, k) == Targets(b, k)
    ensures a == b
  {
    forall k | k in a ensures a[k] == b[k] { assert Targets(a, k) == Targets(b, k); }
  }

  lemma AddTargets(m: ScopeMap, src: string, ts: seq<string>, k: string)
    ensures Targets(Add(m, src, ts), k) == Targets(m, k) + if k == src then ts else []
  {}

  lemma MergeTargets(a: ScopeMap, b: ScopeMap, k: string)
    ensures Targets(Merge(a, b), k) == Targets(a, k) + Targets(b, k)
  {}

  lemma Regroup(a: seq<string>, b: seq<string>, c: seq<string>)
    ensures (a + b) + c == a + (([] + b) + c)
  {}

  lemma MergeAddAt(m: ScopeMap, src: string, ts: seq<string>, d: ScopeMap, k: string)
    ensures Targets(Merge(Add(m, src, ts), d), k) == Targets(Merge(m, Merge(Add(map[], src, ts), d)), k)
  {
    var x := if k == src then ts else [];
    MergeTargets(Add(m, src, ts), d, k);
    MergeTargets(m, Merge(Add(map[], src, ts), d), k);
    MergeTargets(Add(map[], src, ts), d, k);
    AddTargets(m, src, ts, k);
    AddTargets(map[], src, ts, k);
    Regroup(Targets(m, k), x, Targets(d, k));
  }

  lemma MergeAdd(m: ScopeMap, src: string, ts: seq<string>, d: ScopeMap)
    ensures Merge(Add(m, src, ts), d) == Merge(m, Merge(Add(map[], src, ts), d))
  {
    var l, r := Merge(Add(m, src, ts), d), Merge(m, Merge(Add(map[], src, ts), d));
    forall k ensures Targets(l, k) == Targets(r, k) { MergeAddAt(m, src, ts, d, k); }
    assert l.Keys == r.Keys;
    SameTargets(l, r);
  }

  lemma MergeNothing(m: ScopeMap)
    ensures Merge(m, map[]) == m
  {
    forall k | k in m ensures Merge(m, map[])[k] == m[k] { assert m[k] + [] == m[k]; }
  }

  lemma {:induction false} FoldOnto(entries: seq<string>, m: ScopeMap)
    ensures Fold(entries, m) ==
            match Fold(entries, map[]) case None => None case Some(d) => Some(Merge(m, d))
  {
    if entries == [] {
      MergeNothing(m);
    } else {
      match ReadEntry(entries[0])
      case Blank => FoldOnto(entries[1..], m);
      case Malformed =>
      case Pair(src, ts) =>
        FoldOnto(entries[1..], Add(m, src, ts));
        FoldOnto(entries[1..], Add(map[], src, ts));
        if Fold(entries[1..], map[]).Some? {
          MergeAdd(m, src, ts, Fold(entries[1..], map[]).value);
        }
    }
  }

  lemma {:induction false} FoldConcat(a: seq<string>, b: seq<string>, m: ScopeMap)
    ensures Fold(a + b, m) == match Fold(a, m) case None => None case Some(d) => Fold(b, d)
  {
    if a == [] {
      assert a + b == b;
    } else {
      assert (a + b)[1..] == a[1..] + b;
      match ReadEntry(a[0])
      case Blank => FoldConcat(a[1..], b, m);
      case Malformed =>
      case Pair(src, ts) => FoldConcat(a[1..], b, Add(m, src, ts));
    }
  }

  /** A text with no entries at all: nothing but separators and white space. */
  predicate Vacant(raw: string) {
    Fold(Split(raw, ','), map[]) == Some(map[])
  }

  lemma {:induction false} AllSpace(s: string)
    requires TrimSpace(s) == ""
    ensures forall i :: 0 <= i < |s| ==> IsSpace(s[i])
    decreases |s|
  {
    if s != "" {
      if IsSpace(s[0]) { AllSpace(s[1..]); } else { AllSpace(s[..|s| - 1]); }
    }
  }

  lemma BlankIsVacant(s: string)
    requires TrimSpace(s) == ""
    ensures Vacant(s)
  {
    AllSpace(s);
    assert ',' !in s;
    assert Split(s, ',') == [s];
  }

  lemma SomeText(a: string, b: string)
    ensures TrimSpace(a + "," + b) != ""
  {
    assert (a + "," + b)[|a|] == ',';
    if TrimSpace(a + "," + b) == "" { AllSpace(a + "," + b); }
  }

  /**
  Joining two texts with a comma concatenates what they mean, key by key; the joined text is
  accepted exactly when each text is accepted or vacant and not both are vacant.
  */
  lemma ParseConcat(a: string, b: string)
    ensures Parse(a + "," + b).Some? <==>
            (Parse(a).Some? || Vacant(a)) && (Parse(b).Some? || Vacant(b)) && !(Vacant(a) && Vacant(b))
    ensures Parse(a).Some? && Parse(b).Some? ==> Parse(a + "," + b) == Some(Merge(Parse(a).value, Parse(b).value))
  {
    var fa, fb := Fold(Split(a, ','), map[]), Fold(Split(b, ','), map[]);
    SomeText(a, b);
    SplitConcat(a, ',', b);
    FoldConcat(Split(a, ','), Split(b, ','), map[]);
    if TrimSpace(a) == "" { BlankIsVacant(a); }
    if TrimSpace(b) == "" { BlankIsVacant(b); }
    if fa.Some? {
      FoldOnto(Split(b, ','), fa.value);
      if fb.Some? { MergeEmpty(fa.value, fb.value); }
    }
  }

  lemma MergeEmpty(a: ScopeMap, b: ScopeMap)
    ensures Merge(a, b) == map[] <==> a == map[] && b == map[]
  {}

  // ---------------------------------------------------------------------------
  // Round trip

  predicate GoodKey(k: string) {
    k != "" && Trimmed(k) && ':' !in k && ',' !in k
  }

  predicate GoodTarget(t: string) {
    t != "" && Trimmed(t) && ',' !in t && '+' !in t
  }

  predicate GoodTargets(ts: seq<string>) {
    |ts| > 0 && forall i :: 0 <= i < |ts| ==> GoodTarget(ts[i])
  }

  /** Keys of the map, each with at least one target. */
  predicate Covers(m: ScopeMap, ks: seq<string>) {
    forall i :: 0 <= i < |ks| ==> ks[i] in m && |m[ks[i]]| > 0
  }

  function RenderEntry(k: string, ts: seq<string>): string
    requires |ts| > 0
  {
    k + ":" + Join(ts, '+')
  }

  /** The map in the flag's grammar, its keys in the order given. */
  function Render(m: ScopeMap, ks: seq<string>): string
    requires |ks| > 0 && Covers(m, ks)
  {
    Join(Rendered(m, ks), ',')
  }

  function Rendered(m: ScopeMap, ks: seq<string>): (parts: seq<string>)
    requires Covers(m, ks)
    ensures |parts| == |ks| && forall i :: 0 <= i < |ks| ==> parts[i] == RenderEntry(ks[i], m[ks[i]])
  {
    if |ks| == 0 then [] else [RenderEntry(ks[0], m[ks[0]])] + Rendered(m, ks[1..])
  }

  function Last<T>(s: seq<T>): T
    requires |s| > 0
  {
    s[|s| - 1]
  }

  lemma {:induction false} JoinEnds(ts: seq<string>, c: char)
    requires |ts| > 0 && forall i :: 0 <= i < |ts| ==> |ts[i]| > 0
    ensures var s := Join(ts, c); |s| > 0 && s[0] == ts[0][0] && s[|s| - 1] == Last(Last(ts))
  {
    if |ts| > 1 {
      JoinEnds(ts[1..], c);
      var tail := Join(ts[1..], c);
      assert Join(ts, c) == ts[0] + [c] + tail;
      assert Last(ts) == Last(ts[1..]);
    }
  }

  lemma {:induction false} JoinAvoids(ts: seq<string>, c: char, x: char)
    requires |ts| > 0 && x != c && forall i :: 0 <= i < |ts| ==> x !in ts[i]
    ensures x !in Join(ts, c)
  {
    if |ts| > 1 { JoinAvoids(ts[1..], c, x); }
  }

  lemma TrimAllTrimmed(ts: seq<string>)
    requires forall i :: 0 <= i < |ts| ==> Trimmed(ts[i])
    ensures TrimAll(ts) == ts
  {}

  /** Reading a rendered entry gives back its key and its targets. */
  lemma EntryRoundTrip(k: string, ts: seq<string>)
    requires GoodKey(k) && GoodTargets(ts)
    ensures ReadEntry(RenderEntry(k, ts)) == Pair(k, ts) && ',' !in RenderEntry(k, ts)
  {
    var body := Join(ts, '+');
    JoinEnds(ts, '+');
    JoinAvoids(ts, '+', ',');
    HeadAndTail(k, body);
    EntryFromTrimmed(k + [':'] + body, k + [':'] + body, |k|, k, body);
    PairRoundTrip(k, ts);
  }

  lemma PairRoundTrip(k: string, ts: seq<string>)
    requires GoodKey(k) && GoodTargets(ts)
    ensures Trimmed(Join(ts, '+')) && ReadPair(k, Join(ts, '+')) == Pair(k, ts)
  {
    JoinEnds(ts, '+');
    SplitJoin(ts, '+');
    TrimAllTrimmed(ts);
  }

  ghost predicate Distinct(ks: seq<string>) {
    forall i, j :: 0 <= i < j < |ks| ==> ks[i] != ks[j]
  }

  function Restrict(m: ScopeMap, ks: seq<string>): ScopeMap {
    map k | k in ks && k in m :: m[k]
  }

  lemma RestrictStep(m: ScopeMap, ks: seq<string>, acc: ScopeMap)
    requires |ks| > 0 && ks[0] in m
    ensures acc[ks[0] := m[ks[0]]] + Restrict(m, ks[1..]) == acc + Restrict(m, ks)
  {}

  lemma {:induction false} FoldRendered(m: ScopeMap, ks: seq<string>, acc: ScopeMap)
    requires Distinct(ks)
    requires Covers(m, ks) && forall i :: 0 <= i < |ks| ==> ks[i] !in acc && GoodKey(ks[i]) && GoodTargets(m[ks[i]])
    ensures Fold(Rendered(m, ks), acc) == Some(acc + Restrict(m, ks))
    decreases |ks|
  {
    if ks == [] {
      assert acc + Restrict(m, ks) == acc;
    } else {
      var k, rest := ks[0], ks[1..];
      EntryRoundTrip(k, m[k]);
      assert Rendered(m, ks)[1..] == Rendered(m, rest);
      var acc' := Add(acc, k, m[k]);
      assert [] + m[k] == m[k];
      assert acc' == acc[k := m[k]];
      FoldRendered(m, rest, acc');
      RestrictStep(m, ks, acc);
    }
  }

  /** Writing any scope map in the flag's grammar, keys in any order, and parsing it returns the map. */
  lemma ParseRender(m: ScopeMap, ks: seq<string>)
    requires |ks| > 0 && Distinct(ks) && (forall k :: k in ks <==> k in m)
    requires Covers(m, ks) && forall i :: 0 <= i < |ks| ==> GoodKey(ks[i]) && GoodTargets(m[ks[i]])
    ensures Parse(Render(m, ks)) == Some(m)
  {
    RenderSplits(m, ks);
    FoldRendered(m, ks, map[]);
    RestrictAll(m, ks);
  }

  lemma RestrictAll(m: ScopeMap, ks: seq<string>)
    requires |ks| > 0 && forall k :: k in ks <==> k in m
    ensures map[] + Restrict(m, ks) == m && m != map[]
  {
    assert ks[0] in ks;
  }

  lemma RenderSplits(m: ScopeMap, ks: seq<string>)
    requires |ks| > 0 && Covers(m, ks) && forall i :: 0 <= i < |ks| ==> GoodKey(ks[i]) && GoodTargets(m[ks[i]])
    ensures Split(Render(m, ks), ',') == Rendered(m, ks)
    ensures TrimSpace(Render(m, ks)) != ""
  {
    var parts := Rendered(m, ks);
    forall i | 0 <= i < |parts| ensures ',' !in parts[i] && |parts[i]| > 0 {
      EntryRoundTrip(ks[i], m[ks[i]]);
    }
    SplitJoin(parts, ',');
    JoinEnds(parts, ',');
    assert parts[0] == RenderEntry(ks[0], m[ks[0]]);
    if TrimSpace(Render(m, ks)) == "" { AllSpace(Render(m, ks)); }
  }
}
