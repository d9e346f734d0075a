/**
 * The naming and styling allocator: the number a new temporary container
 * gets, its name from the user's template, and the pools its colour and icon
 * are drawn from.
 */
module Allocation {
  import opened Wrappers
  import opened Text
  import opened Records
  import opened Tallies

  // ---------------------------------------------------------------------
  // Numbers
  // ---------------------------------------------------------------------

  /** `Math.max(...numbers)` of a non-empty list. */
  function SeqMax(numbers: seq<nat>): (top: nat)
    requires |numbers| > 0
    ensures top in numbers
    ensures forall x :: x in numbers ==> x <= top
  {
    if |numbers| == 1 then numbers[0]
    else
      var rest := SeqMax(numbers[1..]);
      assert forall x :: x in numbers ==> x == numbers[0] || x in numbers[1..];
      if numbers[0] > rest then numbers[0] else rest
  }

  /** The scan `for (i = from; i < top; i++) if (!numbers.includes(i)) return i;`, else `top + 1`. */
  function FirstGap(numbers: seq<nat>, from: nat, top: nat): nat
    decreases top - from
  {
    if from >= top then top + 1
    else if from !in numbers then from
    else FirstGap(numbers, from + 1, top)
  }

  /** "reuse" numbering: 1 for an empty list, else the first gap below the maximum, else maximum + 1. */
  function ReusedNumber(numbers: seq<nat>): nat {
    if |numbers| == 0 then 1 else FirstGap(numbers, 1, SeqMax(numbers))
  }

  lemma {:induction false} FirstGapSpec(numbers: seq<nat>, from: nat, top: nat)
    requires 1 <= from
    requires forall j :: 1 <= j < from ==> j in numbers
    requires forall x :: x in numbers ==> x <= top
    requires top >= 1 ==> top in numbers
    ensures var r := FirstGap(numbers, from, top);
      && r >= 1 && r !in numbers
      && forall j :: 1 <= j < r ==> j in numbers
    decreases top - from
  {
    if from < top && from in numbers {
      FirstGapSpec(numbers, from + 1, top);
    }
  }

  /**
   * Under "reuse" numbering a new container gets the smallest positive
   * number that is not in use.
   */
  lemma ReusedNumberIsSmallestFree(numbers: seq<nat>)
    ensures var r := ReusedNumber(numbers);
      && r >= 1 && r !in numbers
      && forall j :: 1 <= j < r ==> j in numbers
  {
    if |numbers| > 0 {
      FirstGapSpec(numbers, 1, SeqMax(numbers));
    }
  }

  /**
   * When the used-number list holds the number of every record, a reused
   * number is not the number of any existing container.
   */
  lemma ReusedNumberIsUnique(records: map<Id, TempContainer>, numbers: seq<nat>)
    requires forall id :: id in records ==> records[id].number in numbers
    ensures forall id :: id in records ==> records[id].number != ReusedNumber(numbers)
  {
    ReusedNumberIsSmallestFree(numbers);
  }

  /** Every record's number is in the used-number list. */
  ghost predicate NumbersCover(local: LocalStorage) {
    forall id :: id in local.tempContainers ==> local.tempContainers[id].number in local.tempContainersNumbers
  }

  /** No record's number exceeds the "keep" counter. */
  ghost predicate CounterBounds(local: LocalStorage) {
    forall id :: id in local.tempContainers ==> local.tempContainers[id].number <= local.tempContainerCounter
  }

  /** No two records share a number. */
  ghost predicate NumbersUnique(records: map<Id, TempContainer>) {
    forall a, b :: a in records && b in records && a != b ==> records[a].number != records[b].number
  }

  /**
   * A creation's effect on storage: the number is drawn by the mode (the
   * counter raised under "keep", the smallest free number under "reuse")
   * and listed, and the record is written under `id` when the identity
   * exists. Creation keeps every record's number listed, and under "keep"
   * keeps the counter above every number. The new number is no other
   * record's number (under "reuse" given the list covers the records, under
   * "keep" given the counter bounds them), so numbers stay unique.
   */
  lemma CreationKeepsNumbersApart(mode: NumberMode, before: LocalStorage, after: LocalStorage,
                                  id: Id, o: TempContainer, written: bool)
    requires after.tempContainersNumbers == before.tempContainersNumbers + [o.number]
    requires after.tempContainers == (if written then before.tempContainers[id := o] else before.tempContainers)
    requires mode == Keep ==> after.tempContainerCounter == before.tempContainerCounter + 1 && o.number == after.tempContainerCounter
    requires mode == Reuse ==> o.number == ReusedNumber(before.tempContainersNumbers)
    ensures NumbersCover(before) ==> NumbersCover(after)
    ensures mode == Keep && CounterBounds(before) ==> CounterBounds(after)
    ensures (mode == Reuse && NumbersCover(before)) || (mode == Keep && CounterBounds(before)) ==>
      && (forall j :: j in after.tempContainers && j != id ==> after.tempContainers[j].number != o.number)
      && (NumbersUnique(before.tempContainers) ==> NumbersUnique(after.tempContainers))
  {
    if mode == Reuse && NumbersCover(before) {
      ReusedNumberIsUnique(before.tempContainers, before.tempContainersNumbers);
    }
  }

  /**
   * Converting a permanent container writes a record without listing its
   * number. Under "reuse" that number is free in the list, so the record is
   * no longer covered, and the next creation draws the very same number.
   */
  lemma ConvertedNumberIsDrawnAgain(before: LocalStorage, id: Id, o: TempContainer)
    requires o.number == ReusedNumber(before.tempContainersNumbers)
    ensures var after := before.(tempContainers := before.tempContainers[id := o]);
      && !NumbersCover(after)
      && ReusedNumber(after.tempContainersNumbers) == after.tempContainers[id].number
  {
    ReusedNumberIsSmallestFree(before.tempContainersNumbers);
  }

  /**
   * A used-number list resynchronised from the records (same numbers, same
   * multiplicities) holds the number of every record, one entry per record.
   */
  lemma ResyncedNumbersCoverRecords(records: map<Id, TempContainer>, numbers: seq<nat>)
    requires multiset(numbers) == Tally(records, records.Keys, NumberOf)
    ensures forall id :: id in records ==> records[id].number in numbers
    ensures |numbers| == |records|
  {
    TallyMembers(records, records.Keys, NumberOf);
    TallySize(records, records.Keys, NumberOf);
    forall id | id in records ensures records[id].number in numbers {
      assert NumberOf(records[id]) in multiset(numbers);
    }
  }

  // ---------------------------------------------------------------------
  // Names
  // ---------------------------------------------------------------------

  const FullDomainPlaceholder: string := "%fulldomain%"
  const DomainPlaceholder: string := "%domain%"

  /** The host of the URL a container is created for, and its registrable domain. */
  datatype HostParts = HostParts(hostname: string, domain: string)

  /**
   * The URL parser (`new URL(url).hostname`) and the public-suffix list
   * (`psl.isValid`, `psl.get`), which are libraries outside the model.
   */
  datatype UrlLibrary = UrlLibrary(
    hostnameOf: string -> string,
    pslValid: string -> bool,
    pslGet: string -> string)

  /** The host parts of `url`, or none when `url` is empty (falsy). */
  function HostPartsOf(url: string, lib: UrlLibrary): (r: Option<HostParts>)
    ensures r.None? <==> url == ""
    ensures r.Some? ==> r.value.hostname == lib.hostnameOf(url)
    ensures r.Some? && lib.pslValid(r.value.hostname) ==> r.value.domain == lib.pslGet(r.value.hostname)
    ensures r.Some? && !lib.pslValid(r.value.hostname) ==> r.value.domain == r.value.hostname
  {
    if url == "" then None
    else
      var hostname := lib.hostnameOf(url);
      Some(HostParts(hostname, if lib.pslValid(hostname) then lib.pslGet(hostname) else hostname))
  }

  /**
   * The name built from the template: with a URL the first `%fulldomain%`
   * becomes the host name and the first `%domain%` the registrable domain;
   * without one both are dropped. The number is appended.
   */
  function ContainerName(template: string, host: Option<HostParts>, number: nat): (name: string)
    ensures EndsWith(name, NatToString(number))
  {
    var base :=
      match host
      case Some(h) =>
        var withHost :=
          if Contains(template, FullDomainPlaceholder)
          then ReplaceFirst(template, FullDomainPlaceholder, h.hostname) else template;
        if Contains(withHost, DomainPlaceholder)
        then ReplaceFirst(withHost, DomainPlaceholder, h.domain) else withHost
      case None =>
        ReplaceFirst(ReplaceFirst(template, FullDomainPlaceholder, ""), DomainPlaceholder, "");
    base + NatToString(number)
  }

  /** A template without placeholders is used as it is, followed by the number. */
  lemma PlainTemplateName(template: string, host: Option<HostParts>, number: nat)
    requires !Contains(template, FullDomainPlaceholder) && !Contains(template, DomainPlaceholder)
    ensures ContainerName(template, host, number) == template + NatToString(number)
  {
    ReplaceFirstAbsent(template, FullDomainPlaceholder, "");
    ReplaceFirstAbsent(template, DomainPlaceholder, "");
  }

  /** No proper suffix of `p` is also a prefix of `p`: an occurrence of `p` cannot overlap another. */
  predicate NoBorderFrom(p: string, d: nat)
    decreases |p| - d
  {
    d >= |p| || (p[d..] != p[..|p| - d] && NoBorderFrom(p, d + 1))
  }

  lemma NoBorderAt(p: string, d: nat, e: nat)
    requires NoBorderFrom(p, d) && d <= e < |p|
    ensures p[e..] != p[..|p| - e]
    decreases e - d
  {
    if d < e {
      NoBorderAt(p, d + 1, e);
    }
  }

  /**
   * A border at `e` would repeat the first two characters of `p` at `e`; when
   * no index from `d` on does, there is no border from `d` on.
   */
  lemma {:induction false} NoBorderByFirstTwo(p: string, d: nat)
    requires |p| >= 2
    requires forall e :: d <= e < |p| - 1 ==> p[e] != p[0] || p[e + 1] != p[1]
    requires d >= 1 && p[|p| - 1] != p[0]
    ensures NoBorderFrom(p, d)
    decreases |p| - d
  {
    if d < |p| {
      NoBorderByFirstTwo(p, d + 1);
      if d == |p| - 1 {
        assert p[d..][0] != p[..|p| - d][0];
      } else if p[d] != p[0] {
        assert p[d..][0] != p[..|p| - d][0];
      } else {
        assert p[d..][1] != p[..|p| - d][1];
      }
    }
  }

  /**
   * A 16-character string that starts with `-d` and has its only other `-`
   * at index 8, followed by a character other than `d`, cannot overlap itself.
   */
  lemma DashShapeHasNoBorder(p: string)
    requires |p| == 16 && p[0] == '-' && p[1] == 'd' && p[8] == '-' && p[9] != 'd'
    requires forall i :: 1 <= i < 16 && i != 8 ==> p[i] != '-'
    ensures NoBorderFrom(p, 1)
  {
    NoBorderByFirstTwo(p, 1);
  }

  /** The history suffix cannot overlap itself: the only `-` after its first character is followed by `h`, not `d`. */
  lemma HistorySuffixHasNoBorder()
    ensures NoBorderFrom(HistorySuffix, 1)
  {
    DashShapeHasNoBorder(HistorySuffix);
  }

  /** In `base + p`, with `base` non-empty and free of `p`, `p` does not start at index 0. */
  lemma SuffixNotAtStart(base: string, p: string)
    requires base != "" && p != "" && NoBorderFrom(p, 1)
    requires !Contains(base, p)
    ensures |base + p| >= |p| && (base + p)[..|p|] != p
  {
    var n := |p|;
    var s := base + p;
    if |base| >= n {
      assert s[..n] == base[..n];
      assert !OccursAt(base, p, 0);
    } else {
      var m := |base|;
      NoBorderAt(p, 1, m);
      assert s[..n][m..] == p[..n - m];
      assert s[..n][m..] != p[m..];
    }
  }

  /** Removing the first occurrence of a self-overlap-free `p` from `base + p` gives back `base`. */
  lemma {:induction false} StripSuffix(base: string, p: string)
    requires p != "" && NoBorderFrom(p, 1)
    requires !Contains(base, p)
    ensures ReplaceFirst(base + p, p, "") == base
    decreases |base|
  {
    var s := base + p;
    if base == "" {
      assert s[..|p|] == p;
    } else {
      SuffixNotAtStart(base, p);
      assert ReplaceFirst(s, p, "") == [s[0]] + ReplaceFirst(s[1..], p, "");
      forall k: nat ensures !OccursAt(base[1..], p, k) {
        OccursShift(base, p, k);
      }
      StripSuffix(base[1..], p);
      assert s[1..] == base[1..] + p;
      assert [base[0]] + base[1..] == base;
    }
  }

  /**
   * Taking the history suffix off a name that got it at creation gives back
   * the name it was added to, provided that name did not already contain it.
   */
  lemma StripHistorySuffix(base: string)
    requires !Contains(base, HistorySuffix)
    ensures ReplaceFirst(base + HistorySuffix, HistorySuffix, "") == base
  {
    HistorySuffixHasNoBorder();
    StripSuffix(base, HistorySuffix);
  }

  // ---------------------------------------------------------------------
  // Colours and icons
  // ---------------------------------------------------------------------

  /** The colours offered by every browser version. */
  const BaseColors: seq<Color> := ["blue", "turquoise", "green", "yellow", "orange", "red", "pink", "purple"]
  /** The icons offered by every browser version. */
  const BaseIcons: seq<Icon> := ["fingerprint", "briefcase", "dollar", "cart", "circle", "gift", "vacation", "food", "fruit", "pet", "tree", "chill"]

  /** A colour is offered when it is not excluded and is used less than the most-used colour (or not at all). */
  predicate UnderUsed(c: Color, excluded: seq<Color>, usage: multiset<Color>, top: nat) {
    c !in excluded && (usage[c] == 0 || usage[c] < top)
  }

  /** `containerColors` filtered by `UnderUsed`, in order. */
  function UnderUsedColors(colors: seq<Color>, excluded: seq<Color>, usage: multiset<Color>, top: nat): (r: seq<Color>)
    ensures forall c {:trigger c in r} :: c in r <==> c in colors && UnderUsed(c, excluded, usage, top)
  {
    if colors == [] then []
    else
      var last := colors[|colors| - 1];
      var prefix := colors[..|colors| - 1];
      assert colors == prefix + [last];
      UnderUsedColors(prefix, excluded, usage, top) + (if UnderUsed(last, excluded, usage, top) then [last] else [])
  }

  /** `entries.filter(e => !excluded.includes(e))`, in order. */
  function Allowed(entries: seq<string>, excluded: seq<string>): (r: seq<string>)
    ensures forall e {:trigger e in r} :: e in r <==> e in entries && e !in excluded
  {
    if entries == [] then []
    else
      var last := entries[|entries| - 1];
      var prefix := entries[..|entries| - 1];
      assert entries == prefix + [last];
      Allowed(prefix, excluded) + (if last !in excluded then [last] else [])
  }

  /** `r` is `s` with some entries left out, the rest kept in their order. */
  predicate IsSubsequence<T(==)>(r: seq<T>, s: seq<T>)
    decreases |s|
  {
    if s == [] then r == []
    else
      || IsSubsequence(r, s[..|s| - 1])
      || (r != [] && r[|r| - 1] == s[|s| - 1] && IsSubsequence(r[..|r| - 1], s[..|s| - 1]))
  }

  lemma {:induction false} SubsequenceOfItself<T>(s: seq<T>)
    ensures IsSubsequence(s, s)
    decreases |s|
  {
    if s != [] {
      SubsequenceOfItself(s[..|s| - 1]);
    }
  }

  /** Keeping or dropping the last entry of `s` keeps a subsequence of `s`. */
  lemma SubsequenceExtend<T>(r: seq<T>, s: seq<T>, x: T, keep: bool)
    requires IsSubsequence(r, s)
    ensures IsSubsequence(r + (if keep then [x] else []), s + [x])
  {
    var s' := s + [x];
    assert s'[..|s'| - 1] == s;
    if keep {
      var r' := r + [x];
      assert r'[..|r'| - 1] == r;
    } else {
      assert r + [] == r;
    }
  }

  /** The under-used filter of a single colour keeps it exactly when it is under-used. */
  lemma UnderUsedColorsSingle(c: Color, excluded: seq<Color>, usage: multiset<Color>, top: nat)
    ensures UnderUsedColors([c], excluded, usage, top) == (if UnderUsed(c, excluded, usage, top) then [c] else [])
  {
  }

  /** Appending one colour appends it to the filter exactly when it is under-used. */
  lemma UnderUsedColorsSnoc(colors: seq<Color>, x: Color, excluded: seq<Color>, usage: multiset<Color>, top: nat)
    ensures UnderUsedColors(colors + [x], excluded, usage, top)
         == UnderUsedColors(colors, excluded, usage, top) + (if UnderUsed(x, excluded, usage, top) then [x] else [])
  {
    var s := colors + [x];
    assert s[..|s| - 1] == colors;
  }

  /** The under-used filter works entry by entry: it keeps the order and the repetitions of `colors`. */
  lemma {:induction false} UnderUsedColorsConcat(a: seq<Color>, b: seq<Color>, excluded: seq<Color>, usage: multiset<Color>, top: nat)
    ensures UnderUsedColors(a + b, excluded, usage, top)
         == UnderUsedColors(a, excluded, usage, top) + UnderUsedColors(b, excluded, usage, top)
    decreases |b|
  {
    if b == [] {
      assert a + b == a;
    } else {
      var b0, x := b[..|b| - 1], b[|b| - 1];
      var tail := if UnderUsed(x, excluded, usage, top) then [x] else [];
      calc {
        UnderUsedColors(a + b, excluded, usage, top);
        { assert a + b == (a + b0) + [x]; }
        UnderUsedColors((a + b0) + [x], excluded, usage, top);
        { UnderUsedColorsSnoc(a + b0, x, excluded, usage, top); }
        UnderUsedColors(a + b0, excluded, usage, top) + tail;
        { UnderUsedColorsConcat(a, b0, excluded, usage, top); }
        UnderUsedColors(a, excluded, usage, top) + UnderUsedColors(b0, excluded, usage, top) + tail;
        UnderUsedColors(a, excluded, usage, top) + (UnderUsedColors(b0, excluded, usage, top) + tail);
        { UnderUsedColorsSnoc(b0, x, excluded, usage, top); assert b == b0 + [x]; }
        UnderUsedColors(a, excluded, usage, top) + UnderUsedColors(b, excluded, usage, top);
      }
    }
  }

  /** The exclusion filter of a single entry keeps it exactly when it is not excluded. */
  lemma AllowedSingle(e: string, excluded: seq<string>)
    ensures Allowed([e], excluded) == (if e !in excluded then [e] else [])
  {
  }

  /** Appending one entry appends it to the filter exactly when it is not excluded. */
  lemma AllowedSnoc(entries: seq<string>, x: string, excluded: seq<string>)
    ensures Allowed(entries + [x], excluded) == Allowed(entries, excluded) + (if x !in excluded then [x] else [])
  {
    var s := entries + [x];
    assert s[..|s| - 1] == entries;
  }

  /** The exclusion filter works entry by entry: it keeps the order and the repetitions of `entries`. */
  lemma {:induction false} AllowedConcat(a: seq<string>, b: seq<string>, excluded: seq<string>)
    ensures Allowed(a + b, excluded) == Allowed(a, excluded) + Allowed(b, excluded)
    decreases |b|
  {
    if b == [] {
      assert a + b == a;
    } else {
      var b0, x := b[..|b| - 1], b[|b| - 1];
      var tail := if x !in excluded then [x] else [];
      calc {
        Allowed(a + b, excluded);
        { assert a + b == (a + b0) + [x]; }
        Allowed((a + b0) + [x], excluded);
        { AllowedSnoc(a + b0, x, excluded); }
        Allowed(a + b0, excluded) + tail;
        { AllowedConcat(a, b0, excluded); }
        Allowed(a, excluded) + Allowed(b0, excluded) + tail;
        Allowed(a, excluded) + (Allowed(b0, excluded) + tail);
        { AllowedSnoc(b0, x, excluded); assert b == b0 + [x]; }
        Allowed(a, excluded) + Allowed(b, excluded);
      }
    }
  }

  lemma {:induction false} UnderUsedColorsInOrder(colors: seq<Color>, excluded: seq<Color>, usage: multiset<Color>, top: nat)
    ensures IsSubsequence(UnderUsedColors(colors, excluded, usage, top), colors)
    decreases |colors|
  {
    if colors != [] {
      var prefix, last := colors[..|colors| - 1], colors[|colors| - 1];
      UnderUsedColorsInOrder(prefix, excluded, usage, top);
      SubsequenceExtend(UnderUsedColors(prefix, excluded, usage, top), prefix, last, UnderUsed(last, excluded, usage, top));
      assert prefix + [last] == colors;
    }
  }

  lemma {:induction false} AllowedInOrder(entries: seq<string>, excluded: seq<string>)
    ensures IsSubsequence(Allowed(entries, excluded), entries)
    decreases |entries|
  {
    if entries != [] {
      var prefix, last := entries[..|entries| - 1], entries[|entries| - 1];
      AllowedInOrder(prefix, excluded);
      SubsequenceExtend(Allowed(prefix, excluded), prefix, last, last !in excluded);
      assert prefix + [last] == entries;
    }
  }

  /** How many records use each colour. */
  ghost function ColorUsage(records: map<Id, TempContainer>): multiset<Color> {
    Tally(records, records.Keys, ColorOf)
  }

  /**
   * The pool a random colour is drawn from: the under-used colours; if
   * there are none, every colour that is not excluded; if all are excluded,
   * every colour.
   */
  ghost function AvailableColors(colors: seq<Color>, excluded: seq<Color>, records: map<Id, TempContainer>): seq<Color> {
    var usage := ColorUsage(records);
    var under := UnderUsedColors(colors, excluded, usage, MaxCount(usage));
    if under != [] then under
    else
      var allowed := Allowed(colors, excluded);
      if allowed != [] then allowed else colors
  }

  /** The pool a random icon is drawn from: the icons not excluded, or all of them. */
  function IconPool(icons: seq<Icon>, excluded: seq<Icon>): seq<Icon> {
    var allowed := Allowed(icons, excluded);
    if allowed != [] then allowed else icons
  }

  /** What the colour pool is, case by case. */
  lemma AvailableColorsSpec(colors: seq<Color>, excluded: seq<Color>, records: map<Id, TempContainer>)
    ensures var r := AvailableColors(colors, excluded, records);
      var usage := ColorUsage(records);
      var top := MaxCount(usage);
      && (colors != [] ==> r != [])
      && (forall c :: c in r ==> c in colors)
      && ((exists c :: c in colors && UnderUsed(c, excluded, usage, top)) ==>
            forall c :: c in r <==> c in colors && UnderUsed(c, excluded, usage, top))
      && ((forall c :: c in colors ==> !UnderUsed(c, excluded, usage, top)) &&
          (exists c :: c in colors && c !in excluded) ==>
            forall c :: c in r <==> c in colors && c !in excluded)
      && ((forall c :: c in colors ==> c in excluded) ==> r == colors)
      && IsSubsequence(r, colors)
  {
    var usage := ColorUsage(records);
    var top := MaxCount(usage);
    UnderUsedColorsInOrder(colors, excluded, usage, top);
    AllowedInOrder(colors, excluded);
    SubsequenceOfItself(colors);
    var under := UnderUsedColors(colors, excluded, usage, top);
    var allowed := Allowed(colors, excluded);
    if under != [] {
      assert under[0] in under;
    } else if allowed != [] {
      assert allowed[0] in allowed;
      forall c | c in colors ensures !UnderUsed(c, excluded, usage, top) {
        assert c !in under;
      }
    } else {
      forall c | c in colors ensures c in excluded {
        assert c !in allowed;
      }
      if colors != [] {
        assert colors[0] in colors;
      }
    }
  }

  /** What the icon pool is, case by case. */
  lemma IconPoolSpec(icons: seq<Icon>, excluded: seq<Icon>)
    ensures var r := IconPool(icons, excluded);
      && (icons != [] ==> r != [])
      && (forall i :: i in r ==> i in icons)
      && ((exists i :: i in icons && i !in excluded) ==> forall i :: i in r <==> i in icons && i !in excluded)
      && ((forall i :: i in icons ==> i in excluded) ==> r == icons)
      && IsSubsequence(r, icons)
  {
    AllowedInOrder(icons, excluded);
    SubsequenceOfItself(icons);
    var allowed := Allowed(icons, excluded);
    if allowed != [] {
      assert allowed[0] in allowed;
    } else {
      forall i | i in icons ensures i in excluded {
        assert i !in allowed;
      }
    }
  }

  /**
   * Colours are balanced: every record uses an offered colour and no offered
   * colour is used more than once more than any other.
   */
  ghost predicate Balanced(colors: seq<Color>, records: map<Id, TempContainer>) {
    var usage := ColorUsage(records);
    && (forall id :: id in records ==> records[id].color in colors)
    && (forall a, b :: a in colors && b in colors ==> usage[a] <= usage[b] + 1)
  }

  /** When some colour is in use, a most-used colour is an offered one. */
  lemma MostUsedIsOffered(colors: seq<Color>, records: map<Id, TempContainer>) returns (w: Color)
    requires forall id :: id in records ==> records[id].color in colors
    requires MaxCount(ColorUsage(records)) > 0
    ensures w in colors && ColorUsage(records)[w] == MaxCount(ColorUsage(records))
  {
    var usage := ColorUsage(records);
    w :| w in usage && usage[w] == MaxCount(usage);
    TallyMembers(records, records.Keys, ColorOf);
    var k :| k in records && ColorOf(records[k]) == w;
  }

  /** Without exclusions, every colour in the pool is a least-used colour. */
  lemma DrawnColorIsLeastUsed(colors: seq<Color>, records: map<Id, TempContainer>, c: Color)
    requires Balanced(colors, records)
    requires c in AvailableColors(colors, [], records)
    ensures c in colors
    ensures forall b :: b in colors ==> ColorUsage(records)[c] <= ColorUsage(records)[b]
  {
    var usage := ColorUsage(records);
    var top := MaxCount(usage);
    AvailableColorsSpec(colors, [], records);
    if exists d :: d in colors && UnderUsed(d, [], usage, top) {
      assert UnderUsed(c, [], usage, top);
      if top > 0 {
        var w := MostUsedIsOffered(colors, records);
        forall b | b in colors ensures usage[c] <= usage[b] {
          assert usage[w] <= usage[b] + 1;
        }
      }
    } else {
      forall b | b in colors ensures usage[b] == top {
        assert !UnderUsed(b, [], usage, top);
      }
    }
  }

  /** Adding one use of a least-used colour keeps the spread within one. */
  lemma AddLeastUsedKeepsSpread(colors: seq<Color>, usage: multiset<Color>, c: Color)
    requires c in colors
    requires forall a, b :: a in colors && b in colors ==> usage[a] <= usage[b] + 1
    requires forall b :: b in colors ==> usage[c] <= usage[b]
    ensures var usage' := usage + multiset{c};
      forall a, b :: a in colors && b in colors ==> usage'[a] <= usage'[b] + 1
  {
  }

  /**
   * With no exclusions, a new container whose colour is drawn from the pool
   * keeps the colours balanced: drawing only under-used colours evens out
   * the rotation.
   */
  lemma DrawKeepsBalance(colors: seq<Color>, records: map<Id, TempContainer>, id: Id, rec: TempContainer)
    requires Balanced(colors, records)
    requires id !in records
    requires rec.color in AvailableColors(colors, [], records)
    ensures Balanced(colors, records[id := rec])
  {
    TallyInsert(records, id, rec, ColorOf);
    DrawnColorIsLeastUsed(colors, records, rec.color);
    AddLeastUsedKeepsSpread(colors, ColorUsage(records), rec.color);
  }

  /** The element a draw `pick` selects from a non-empty pool. */
  function Pick(pool: seq<string>, pick: nat): (e: string)
    requires pool != []
    ensures e in pool
  {
    pool[pick % |pool|]
  }
}
