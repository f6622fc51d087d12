/**
 Duplicated bullets in RELEASE-NOTES.md (scripts/check_release_notes_duplicates.py): two
 passes over the lines, and what the messages mean.
 */
module ReleaseNotes {
  import opened Common
  import opened ReleaseNoteText

  datatype Place = Place(section: string, line: nat)

  datatype Occurrence = Occurrence(bullet: string, place: Place)

  /** The messages, without their wording; section names are a set, which the text sorts. */
  datatype Message =
    | RepeatedInUnreleased(bullet: string, lines: seq<nat>)
    | UnreleasedAndReleased(bullet: string, lines: seq<nat>, released: set<string>)
    | RecentAndOlder(bullet: string, recent: string, lines: seq<nat>, older: set<string>)

  /** The conditions by which places are selected. */
  datatype Which = Exactly(section: string) | AnyReleased | OlderThan(recent: string)

  predicate Covers(w: Which, section: string) {
    match w
    case Exactly(s) => section == s
    case AnyReleased => Released(section)
    case OlderThan(recent) => Released(section) && section != recent
  }

  // ------------------------------------------------------------ the file, read directly

  /** The section in force after the first `n` lines. */
  function SectionAfter(lines: seq<string>, n: nat): string
    requires n <= |lines|
  {
    if n == 0 then ""
    else if Header(lines[n - 1]).Some? then Header(lines[n - 1]).value
    else SectionAfter(lines, n - 1)
  }

  /** The bullet that line `i`, counted from zero, holds in some section. */
  function BulletAt(lines: seq<string>, i: nat): Option<Occurrence>
    requires i < |lines|
  {
    if Header(lines[i]).None? && Bullet(lines[i]).Some? && SectionAfter(lines, i) != ""
    then Some(Occurrence(Normalize(Bullet(lines[i]).value), Place(SectionAfter(lines, i), i + 1)))
    else None
  }

  /** Line number `ln` holds this bullet in a section that `w` covers. */
  predicate Occurs(lines: seq<string>, bullet: string, w: Which, ln: nat) {
    && 0 < ln <= |lines|
    && BulletAt(lines, ln - 1).Some?
    && BulletAt(lines, ln - 1).value.bullet == bullet
    && Covers(w, BulletAt(lines, ln - 1).value.place.section)
  }

  /** The first released header among the first `n` lines. */
  function FirstReleased(lines: seq<string>, n: nat): Option<string>
    requires n <= |lines|
  {
    if n == 0 then None
    else if FirstReleased(lines, n - 1).Some? then FirstReleased(lines, n - 1)
    else if Header(lines[n - 1]).Some? && Released(Header(lines[n - 1]).value) then Header(lines[n - 1])
    else None
  }

  // ------------------------------------------------------------ what the loops collect

  function Occurrences(lines: seq<string>, n: nat): seq<Occurrence>
    requires n <= |lines|
  {
    if n == 0 then []
    else Occurrences(lines, n - 1) + (if BulletAt(lines, n - 1).Some? then [BulletAt(lines, n - 1).value] else [])
  }

  function PlacesOf(occurrences: seq<Occurrence>, bullet: string): seq<Place> {
    if occurrences == [] then []
    else
      var last := |occurrences| - 1;
      PlacesOf(occurrences[..last], bullet)
      + (if occurrences[last].bullet == bullet then [occurrences[last].place] else [])
  }

  /** The bullets in the order of their first occurrence. */
  function BulletsOf(occurrences: seq<Occurrence>): seq<string> {
    if occurrences == [] then []
    else
      var last := |occurrences| - 1;
      var before := BulletsOf(occurrences[..last]);
      if occurrences[last].bullet in before then before else before + [occurrences[last].bullet]
  }

  function Select(places: seq<Place>, w: Which): seq<Place> {
    if places == [] then []
    else
      var last := |places| - 1;
      Select(places[..last], w) + (if Covers(w, places[last].section) then [places[last]] else [])
  }

  function Numbers(places: seq<Place>): seq<nat> {
    seq(|places|, i requires 0 <= i < |places| => places[i].line)
  }

  function Names(places: seq<Place>): set<string> {
    set p | p in places :: p.section
  }

  function MessagesFor(bullet: string, places: seq<Place>, recent: Option<string>): seq<Message> {
    var inUnreleased := Select(places, Exactly(UNRELEASED));
    var inReleased := Select(places, AnyReleased);
    Repeats(bullet, inUnreleased) + Keeps(bullet, inUnreleased, inReleased)
    + Drifts(bullet, inUnreleased, places, recent)
  }

  function Repeats(bullet: string, inUnreleased: seq<Place>): seq<Message> {
    if |inUnreleased| > 1 then [RepeatedInUnreleased(bullet, Numbers(inUnreleased))] else []
  }

  function Keeps(bullet: string, inUnreleased: seq<Place>, inReleased: seq<Place>): seq<Message> {
    if inUnreleased != [] && inReleased != []
    then [UnreleasedAndReleased(bullet, Numbers(inUnreleased), Names(inReleased))] else []
  }

  function Drifts(bullet: string, inUnreleased: seq<Place>, places: seq<Place>, recent: Option<string>): seq<Message> {
    if recent.None? || inUnreleased != [] then []
    else
      var inRecent := Select(places, Exactly(recent.value));
      var inOlder := Select(places, OlderThan(recent.value));
      if inRecent == [] || inOlder == [] then []
      else [RecentAndOlder(bullet, recent.value, Numbers(inRecent), Names(inOlder))]
  }

  function MessagesOf(bullets: seq<string>, occurrences: seq<Occurrence>, recent: Option<string>): seq<Message> {
    if bullets == [] then []
    else
      var last := |bullets| - 1;
      MessagesOf(bullets[..last], occurrences, recent)
      + MessagesFor(bullets[last], PlacesOf(occurrences, bullets[last]), recent)
  }

  function Report(lines: seq<string>): seq<Message> {
    var occurrences := Occurrences(lines, |lines|);
    MessagesOf(BulletsOf(occurrences), occurrences, FirstReleased(lines, |lines|))
  }

  // ------------------------------------------------------------ the loops

  method IterBullets(lines: seq<string>) returns (found: seq<Occurrence>)
    ensures found == Occurrences(lines, |lines|)
  {
    found := [];
    var currentSection := "";
    for i := 0 to |lines|
      invariant currentSection == SectionAfter(lines, i)
      invariant found == Occurrences(lines, i)
    {
      var header := Header(lines[i]);
      if header.Some? {
        currentSection := header.value;
      } else {
        var bullet := Bullet(lines[i]);
        if bullet.Some? && currentSection != "" {
          found := found + [Occurrence(Normalize(bullet.value), Place(currentSection, i + 1))];
        }
      }
    }
  }

  method FirstReleasedSection(lines: seq<string>) returns (section: Option<string>)
    ensures section == FirstReleased(lines, |lines|)
  {
    for i := 0 to |lines|
      invariant FirstReleased(lines, i) == None
    {
      var header := Header(lines[i]);
      if header.Some? && Released(header.value) {
        FirstStays(lines, i + 1, |lines|);
        return header;
      }
    }
    return None;
  }

  lemma {:induction false} FirstStays(lines: seq<string>, m: nat, n: nat)
    requires m <= n <= |lines| && FirstReleased(lines, m).Some?
    ensures FirstReleased(lines, n) == FirstReleased(lines, m)
  {
    if m < n { FirstStays(lines, m, n - 1); }
  }

  function WithPlace(places: seq<Place>, o: Occurrence, bullet: string): seq<Place> {
    places + (if o.bullet == bullet then [o.place] else [])
  }

  lemma OneMore(found: seq<Occurrence>, i: nat)
    requires i < |found|
    ensures BulletsOf(found[..i + 1]) ==
            BulletsOf(found[..i]) + (if found[i].bullet in BulletsOf(found[..i]) then [] else [found[i].bullet])
    ensures forall b :: PlacesOf(found[..i + 1], b) == WithPlace(PlacesOf(found[..i], b), found[i], b)
  {
    assert found[..i + 1][..i] == found[..i];
  }

  /** The dictionary of occurrences, as its keys in insertion order and its lists. */
  method Collect(found: seq<Occurrence>) returns (keys: seq<string>, occurrences: map<string, seq<Place>>)
    ensures keys == BulletsOf(found)
    ensures forall b :: b in occurrences <==> b in keys
    ensures forall b :: b in keys ==> occurrences[b] == PlacesOf(found, b)
  {
    keys, occurrences := [], map[];
    assert found[..0] == [];
    for i := 0 to |found|
      invariant keys == BulletsOf(found[..i])
      invariant forall b :: b in occurrences <==> b in keys
      invariant forall b :: PlacesOf(found[..i], b) == if b in occurrences then occurrences[b] else []
    {
      OneMore(found, i);
      var b := found[i].bullet;
      if b !in occurrences {
        occurrences := occurrences[b := []];
        keys := keys + [b];
      }
      occurrences := occurrences[b := occurrences[b] + [found[i].place]];
    }
    assert found[..|found|] == found;
  }

  /** The body of the second loop: what is said about one bullet. */
  method MessagesAbout(bullet: string, places: seq<Place>, recent: Option<string>) returns (messages: seq<Message>)
    ensures messages == MessagesFor(bullet, places, recent)
  {
    var inUnreleased := Select(places, Exactly(UNRELEASED));
    var inReleased := Select(places, AnyReleased);
    messages := [];
    if |inUnreleased| > 1 {
      messages := messages + [RepeatedInUnreleased(bullet, Numbers(inUnreleased))];
    }
    if inUnreleased != [] && inReleased != [] {
      messages := messages + [UnreleasedAndReleased(bullet, Numbers(inUnreleased), Names(inReleased))];
    }
    assert messages == Repeats(bullet, inUnreleased) + Keeps(bullet, inUnreleased, inReleased);
    if recent.Some? && inUnreleased == [] {
      var inRecent := Select(places, Exactly(recent.value));
      var inOlder := Select(places, OlderThan(recent.value));
      if inRecent != [] && inOlder != [] {
        messages := messages + [RecentAndOlder(bullet, recent.value, Numbers(inRecent), Names(inOlder))];
      }
    }
  }

  lemma MessagesOfOneMore(keys: seq<string>, k: nat, found: seq<Occurrence>, recent: Option<string>)
    requires k < |keys|
    ensures MessagesOf(keys[..k + 1], found, recent)
         == MessagesOf(keys[..k], found, recent) + MessagesFor(keys[k], PlacesOf(found, keys[k]), recent)
  {
    assert keys[..k + 1][..k] == keys[..k];
  }

  method FindDuplicates(lines: seq<string>) returns (errors: seq<Message>)
    ensures errors == Report(lines)
  {
    var found := IterBullets(lines);
    var keys, occurrences := Collect(found);
    var recent := FirstReleasedSection(lines);
    errors := [];
    assert keys[..0] == [];
    for k := 0 to |keys|
      invariant errors == MessagesOf(keys[..k], found, recent)
    {
      var messages := MessagesAbout(keys[k], occurrences[keys[k]], recent);
      MessagesOfOneMore(keys, k, found, recent);
      errors := errors + messages;
    }
    assert keys[..|keys|] == keys;
  }

  // ------------------------------------------------------------ what is collected is what is there

  predicate Increasing(lines: seq<nat>) {
    forall i, j :: 0 <= i < j < |lines| ==> lines[i] < lines[j]
  }

  predicate InOrder(places: seq<Place>) {
    forall i, j :: 0 <= i < j < |places| ==> places[i].line < places[j].line
  }

  predicate LinesIncrease(found: seq<Occurrence>) {
    forall j, k :: 0 <= j < k < |found| ==> found[j].place.line < found[k].place.line
  }

  lemma {:induction false} OccurrencesInOrder(lines: seq<string>, n: nat)
    requires n <= |lines|
    ensures LinesIncrease(Occurrences(lines, n))
    ensures forall k :: 0 <= k < |Occurrences(lines, n)| ==> 0 < Occurrences(lines, n)[k].place.line <= n
  {
    if n > 0 { OccurrencesInOrder(lines, n - 1); }
  }

  lemma {:induction false} OccurrencesExact(lines: seq<string>, n: nat, o: Occurrence)
    requires n <= |lines|
    ensures o in Occurrences(lines, n) <==> 0 < o.place.line <= n && BulletAt(lines, o.place.line - 1) == Some(o)
  {
    if n > 0 {
      var here := BulletAt(lines, n - 1);
      var last: seq<Occurrence> := if here.Some? then [here.value] else [];
      OccurrencesExact(lines, n - 1, o);
      InEither(Occurrences(lines, n - 1), last, o);
      assert here.Some? ==> here.value.place.line == n;
      assert o in last <==> here == Some(o);
      assert o in Occurrences(lines, n) <==> o in Occurrences(lines, n - 1) || here == Some(o);
      if o.place.line == n {
        assert o !in Occurrences(lines, n - 1);
      } else {
        assert here != Some(o);
      }
    }
  }

  lemma AppendInOrder(places: seq<Place>, p: Place)
    requires InOrder(places) && forall q :: q in places ==> q.line < p.line
    ensures InOrder(places + [p])
  {
    forall i | 0 <= i < |places|
      ensures places[i].line < p.line
    {
      assert places[i] in places;
    }
  }

  lemma LastOccurrence(found: seq<Occurrence>)
    requires LinesIncrease(found) && found != []
    ensures LinesIncrease(found[..|found| - 1])
    ensures forall o :: o in found <==> o in found[..|found| - 1] || o == found[|found| - 1]
    ensures forall o :: o in found[..|found| - 1] ==> o.place.line < found[|found| - 1].place.line
  {
    assert found == found[..|found| - 1] + [found[|found| - 1]];
  }

  lemma {:induction false} PlacesExact(found: seq<Occurrence>, bullet: string)
    requires LinesIncrease(found)
    ensures InOrder(PlacesOf(found, bullet))
    ensures forall p :: p in PlacesOf(found, bullet) <==> Occurrence(bullet, p) in found
  {
    if found != [] {
      var last := found[|found| - 1];
      var rest := PlacesOf(found[..|found| - 1], bullet);
      LastOccurrence(found);
      PlacesExact(found[..|found| - 1], bullet);
      if last.bullet == bullet {
        forall p | p in rest
          ensures p.line < last.place.line
        {
          assert Occurrence(bullet, p) in found[..|found| - 1];
        }
        AppendInOrder(rest, last.place);
        assert PlacesOf(found, bullet) == rest + [last.place];
      } else {
        assert PlacesOf(found, bullet) == rest;
      }
    }
  }

  lemma LastPlace(places: seq<Place>)
    requires InOrder(places) && places != []
    ensures InOrder(places[..|places| - 1])
    ensures forall p :: p in places <==> p in places[..|places| - 1] || p == places[|places| - 1]
    ensures forall p :: p in places[..|places| - 1] ==> p.line < places[|places| - 1].line
  {
    assert places == places[..|places| - 1] + [places[|places| - 1]];
  }

  lemma {:induction false} SelectExact(places: seq<Place>, w: Which)
    requires InOrder(places)
    ensures InOrder(Select(places, w))
    ensures forall p :: p in Select(places, w) <==> p in places && Covers(w, p.section)
  {
    if places != [] {
      var last := places[|places| - 1];
      var rest := Select(places[..|places| - 1], w);
      LastPlace(places);
      SelectExact(places[..|places| - 1], w);
      if Covers(w, last.section) {
        AppendInOrder(rest, last);
        assert Select(places, w) == rest + [last];
      } else {
        assert Select(places, w) == rest;
      }
    }
  }

  /** The places of a bullet in the sections that `w` covers. */
  function Found(lines: seq<string>, bullet: string, w: Which): seq<Place> {
    Select(PlacesOf(Occurrences(lines, |lines|), bullet), w)
  }

  predicate Holds(lines: seq<string>, bullet: string, w: Which, p: Place) {
    0 < p.line <= |lines| && BulletAt(lines, p.line - 1) == Some(Occurrence(bullet, p)) && Covers(w, p.section)
  }

  lemma FoundExact(lines: seq<string>, bullet: string, w: Which)
    ensures InOrder(Found(lines, bullet, w))
    ensures forall p :: p in Found(lines, bullet, w) <==> Holds(lines, bullet, w, p)
  {
    var found := Occurrences(lines, |lines|);
    OccurrencesInOrder(lines, |lines|);
    PlacesExact(found, bullet);
    SelectExact(PlacesOf(found, bullet), w);
    forall p
      ensures p in Found(lines, bullet, w) <==> Holds(lines, bullet, w, p)
    {
      OccurrencesExact(lines, |lines|, Occurrence(bullet, p));
    }
  }

  lemma OccursHolds(lines: seq<string>, bullet: string, w: Which, ln: nat)
    ensures Occurs(lines, bullet, w, ln) ==> Holds(lines, bullet, w, BulletAt(lines, ln - 1).value.place)
                                             && BulletAt(lines, ln - 1).value.place.line == ln
    ensures forall p :: Holds(lines, bullet, w, p) ==> Occurs(lines, bullet, w, p.line)
  {
  }

  lemma InNumbers(places: seq<Place>, p: Place)
    requires p in places
    ensures p.line in Numbers(places)
  {
    var k :| 0 <= k < |places| && places[k] == p;
    assert Numbers(places)[k] == p.line;
  }

  lemma FromNumbers(places: seq<Place>, ln: nat) returns (p: Place)
    requires ln in Numbers(places)
    ensures p in places && p.line == ln
  {
    var k :| 0 <= k < |places| && Numbers(places)[k] == ln;
    p := places[k];
  }

  lemma NumberExact(lines: seq<string>, bullet: string, w: Which, ln: nat)
    ensures ln in Numbers(Found(lines, bullet, w)) <==> Occurs(lines, bullet, w, ln)
  {
    var places := Found(lines, bullet, w);
    FoundExact(lines, bullet, w);
    OccursHolds(lines, bullet, w, ln);
    if ln in Numbers(places) {
      var p := FromNumbers(places, ln);
      assert Holds(lines, bullet, w, p);
    }
    if Occurs(lines, bullet, w, ln) {
      InNumbers(places, BulletAt(lines, ln - 1).value.place);
    }
  }

  /** The line numbers of a message are exactly the occurrences, in order. */
  lemma NumbersExact(lines: seq<string>, bullet: string, w: Which)
    ensures Increasing(Numbers(Found(lines, bullet, w)))
    ensures forall ln: nat :: ln in Numbers(Found(lines, bullet, w)) <==> Occurs(lines, bullet, w, ln)
  {
    FoundExact(lines, bullet, w);
    forall ln: nat
      ensures ln in Numbers(Found(lines, bullet, w)) <==> Occurs(lines, bullet, w, ln)
    {
      NumberExact(lines, bullet, w, ln);
    }
  }

  /** The section names of a message are exactly the sections of the occurrences. */
  lemma NamesExact(lines: seq<string>, bullet: string, w: Which)
    ensures forall s :: s in Names(Found(lines, bullet, w)) <==>
              exists ln: nat :: Occurs(lines, bullet, w, ln) && BulletAt(lines, ln - 1).value.place.section == s
  {
    FoundExact(lines, bullet, w);
    forall s
      ensures s in Names(Found(lines, bullet, w)) <==>
                exists ln: nat :: Occurs(lines, bullet, w, ln) && BulletAt(lines, ln - 1).value.place.section == s
    {
      if s in Names(Found(lines, bullet, w)) {
        var p :| p in Found(lines, bullet, w) && p.section == s;
        OccursHolds(lines, bullet, w, p.line);
        assert Occurs(lines, bullet, w, p.line);
      }
      if ln: nat :| Occurs(lines, bullet, w, ln) && BulletAt(lines, ln - 1).value.place.section == s {
        OccursHolds(lines, bullet, w, ln);
        assert BulletAt(lines, ln - 1).value.place in Found(lines, bullet, w);
      }
    }
  }

  lemma {:induction false} BulletsExact(found: seq<Occurrence>)
    ensures forall b :: b in BulletsOf(found) <==> exists o :: o in found && o.bullet == b
    ensures forall i, j :: 0 <= i < j < |BulletsOf(found)| ==> BulletsOf(found)[i] != BulletsOf(found)[j]
  {
    if found != [] {
      var last := |found| - 1;
      BulletsExact(found[..last]);
      assert found == found[..last] + [found[last]];
      forall b
        ensures b in BulletsOf(found) <==> exists o :: o in found && o.bullet == b
      {
        if b == found[last].bullet { assert found[last] in found; }
        if o :| o in found[..last] && o.bullet == b { assert o in found; }
      }
    }
  }

  // ------------------------------------------------------------ what the messages mean

  predicate Somewhere(lines: seq<string>, bullet: string, w: Which) {
    exists ln: nat | ln <= |lines| :: Occurs(lines, bullet, w, ln)
  }

  /** The bullet occurs twice under Unreleased. */
  predicate Repeated(lines: seq<string>, bullet: string) {
    exists i: nat, j: nat | i < j <= |lines| ::
      Occurs(lines, bullet, Exactly(UNRELEASED), i) && Occurs(lines, bullet, Exactly(UNRELEASED), j)
  }

  /** It occurs both under Unreleased and in a released section. */
  predicate Kept(lines: seq<string>, bullet: string) {
    Somewhere(lines, bullet, Exactly(UNRELEASED)) && Somewhere(lines, bullet, AnyReleased)
  }

  /** It occurs in the first released section and in another one, and not under
      Unreleased. */
  predicate Drifted(lines: seq<string>, bullet: string) {
    var recent := FirstReleased(lines, |lines|);
    && recent.Some?
    && !Somewhere(lines, bullet, Exactly(UNRELEASED))
    && Somewhere(lines, bullet, Exactly(recent.value))
    && Somewhere(lines, bullet, OlderThan(recent.value))
  }

  ghost predicate LinesAre(numbers: seq<nat>, lines: seq<string>, bullet: string, w: Which) {
    Increasing(numbers) && forall ln: nat :: ln in numbers <==> Occurs(lines, bullet, w, ln)
  }

  ghost predicate NamesAre(names: set<string>, lines: seq<string>, bullet: string, w: Which) {
    forall s :: s in names <==>
      exists ln: nat :: Occurs(lines, bullet, w, ln) && BulletAt(lines, ln - 1).value.place.section == s
  }

  /** When a message belongs in the report, read off the lines. */
  ghost predicate Warranted(lines: seq<string>, m: Message) {
    match m
    case RepeatedInUnreleased(b, numbers) =>
      Repeated(lines, b) && LinesAre(numbers, lines, b, Exactly(UNRELEASED))
    case UnreleasedAndReleased(b, numbers, released) =>
      && Kept(lines, b)
      && LinesAre(numbers, lines, b, Exactly(UNRELEASED))
      && NamesAre(released, lines, b, AnyReleased)
    case RecentAndOlder(b, recent, numbers, older) =>
      && Drifted(lines, b) && FirstReleased(lines, |lines|) == Some(recent)
      && LinesAre(numbers, lines, b, Exactly(recent))
      && NamesAre(older, lines, b, OlderThan(recent))
  }

  lemma FoundSomewhere(lines: seq<string>, bullet: string, w: Which)
    ensures Found(lines, bullet, w) != [] <==> Somewhere(lines, bullet, w)
  {
    NumbersExact(lines, bullet, w);
    var numbers := Numbers(Found(lines, bullet, w));
    if numbers != [] { assert numbers[0] in numbers; }
  }

  lemma TwoNumbers(numbers: seq<nat>, i: nat, j: nat)
    requires i in numbers && j in numbers && i != j
    ensures |numbers| > 1
  {
  }

  lemma FoundTwice(lines: seq<string>, bullet: string)
    ensures |Found(lines, bullet, Exactly(UNRELEASED))| > 1 <==> Repeated(lines, bullet)
  {
    var w := Exactly(UNRELEASED);
    var numbers := Numbers(Found(lines, bullet, w));
    NumbersExact(lines, bullet, w);
    if |numbers| > 1 {
      var (i, j) := (numbers[0], numbers[1]);
      assert i in numbers && j in numbers && i < j;
      assert Occurs(lines, bullet, w, i) && Occurs(lines, bullet, w, j);
    }
    if Repeated(lines, bullet) {
      var i: nat, j: nat :| i < j <= |lines| && Occurs(lines, bullet, w, i) && Occurs(lines, bullet, w, j);
      TwoNumbers(numbers, i, j);
    }
  }

  lemma DropLast(a: seq<nat>)
    requires Increasing(a) && a != []
    ensures Increasing(a[..|a| - 1])
    ensures forall n: nat :: n in a ==> n <= a[|a| - 1]
    ensures Elements(a[..|a| - 1]) == Elements(a) - {a[|a| - 1]}
  {
    assert a == a[..|a| - 1] + [a[|a| - 1]];
  }

  lemma {:induction false} SameNumbers(a: seq<nat>, b: seq<nat>)
    requires Increasing(a) && Increasing(b) && Elements(a) == Elements(b)
    ensures a == b
    decreases |a|
  {
    assert |b| > 0 ==> b[0] in Elements(b);
    assert |a| > 0 ==> a[0] in Elements(a);
    if a != [] {
      var (m, n) := (a[|a| - 1], b[|b| - 1]);
      DropLast(a);
      DropLast(b);
      assert m in Elements(b) && n in Elements(a);
      assert m == n;
      SameNumbers(a[..|a| - 1], b[..|b| - 1]);
      assert a == a[..|a| - 1] + [m] && b == b[..|b| - 1] + [n];
    }
  }

  lemma LinesAreFound(lines: seq<string>, bullet: string, w: Which, numbers: seq<nat>)
    ensures LinesAre(numbers, lines, bullet, w) <==> numbers == Numbers(Found(lines, bullet, w))
  {
    NumbersExact(lines, bullet, w);
    if LinesAre(numbers, lines, bullet, w) {
      assert Elements(numbers) == Elements(Numbers(Found(lines, bullet, w)));
      SameNumbers(numbers, Numbers(Found(lines, bullet, w)));
    }
  }

  lemma NamesAreFound(lines: seq<string>, bullet: string, w: Which, names: set<string>)
    ensures NamesAre(names, lines, bullet, w) <==> names == Names(Found(lines, bullet, w))
  {
    NamesExact(lines, bullet, w);
    if NamesAre(names, lines, bullet, w) {
      forall s
        ensures s in names <==> s in Names(Found(lines, bullet, w))
      {
      }
    }
  }

  /** The messages about one bullet are the warranted ones. */
  lemma MessagesForExact(lines: seq<string>, bullet: string, m: Message)
    ensures m in MessagesFor(bullet, PlacesOf(Occurrences(lines, |lines|), bullet), FirstReleased(lines, |lines|))
       <==> m.bullet == bullet && Warranted(lines, m)
  {
    FoundSomewhere(lines, bullet, Exactly(UNRELEASED));
    var (places, recent) := (PlacesOf(Occurrences(lines, |lines|), bullet), FirstReleased(lines, |lines|));
    var (inUnreleased, inReleased) := (Select(places, Exactly(UNRELEASED)), Select(places, AnyReleased));
    InEither(Repeats(bullet, inUnreleased) + Keeps(bullet, inUnreleased, inReleased),
             Drifts(bullet, inUnreleased, places, recent), m);
    InEither(Repeats(bullet, inUnreleased), Keeps(bullet, inUnreleased, inReleased), m);
    match m
    case RepeatedInUnreleased(b, numbers) =>
      FoundTwice(lines, bullet);
      LinesAreFound(lines, bullet, Exactly(UNRELEASED), numbers);
    case UnreleasedAndReleased(b, numbers, released) =>
      FoundSomewhere(lines, bullet, AnyReleased);
      LinesAreFound(lines, bullet, Exactly(UNRELEASED), numbers);
      NamesAreFound(lines, bullet, AnyReleased, released);
    case RecentAndOlder(b, recent, numbers, older) =>
      FoundSomewhere(lines, bullet, Exactly(recent));
      FoundSomewhere(lines, bullet, OlderThan(recent));
      LinesAreFound(lines, bullet, Exactly(recent), numbers);
      NamesAreFound(lines, bullet, OlderThan(recent), older);
  }

  predicate Says(found: seq<Occurrence>, recent: Option<string>, bullet: string, m: Message) {
    m in MessagesFor(bullet, PlacesOf(found, bullet), recent)
  }

  lemma {:induction false} SaidIsReported(bullets: seq<string>, found: seq<Occurrence>, recent: Option<string>,
                                          b: string, m: Message)
    requires b in bullets && Says(found, recent, b, m)
    ensures m in MessagesOf(bullets, found, recent)
  {
    var last := |bullets| - 1;
    assert bullets == bullets[..last] + [bullets[last]];
    if b != bullets[last] {
      SaidIsReported(bullets[..last], found, recent, b, m);
    }
  }

  lemma {:induction false} ReportedIsSaid(bullets: seq<string>, found: seq<Occurrence>, recent: Option<string>,
                                          m: Message)
    returns (b: string)
    requires m in MessagesOf(bullets, found, recent)
    ensures b in bullets && Says(found, recent, b, m)
  {
    var last := |bullets| - 1;
    var rest := bullets[..last];
    var said := MessagesFor(bullets[last], PlacesOf(found, bullets[last]), recent);
    assert MessagesOf(bullets, found, recent) == MessagesOf(rest, found, recent) + said;
    InEither(MessagesOf(rest, found, recent), said, m);
    if m in said {
      b := bullets[last];
    } else {
      b := ReportedIsSaid(rest, found, recent, m);
    }
  }

  lemma InEither<T>(a: seq<T>, b: seq<T>, x: T)
    ensures x in a + b <==> x in a || x in b
  {
  }

  lemma BulletListed(found: seq<Occurrence>, o: Occurrence)
    requires o in found
    ensures o.bullet in BulletsOf(found)
  {
    BulletsExact(found);
  }

  lemma SomewhereListed(lines: seq<string>, bullet: string, w: Which)
    requires Somewhere(lines, bullet, w)
    ensures bullet in BulletsOf(Occurrences(lines, |lines|))
  {
    var ln: nat :| ln <= |lines| && Occurs(lines, bullet, w, ln);
    OccursHolds(lines, bullet, w, ln);
    OccurrencesExact(lines, |lines|, BulletAt(lines, ln - 1).value);
    BulletListed(Occurrences(lines, |lines|), BulletAt(lines, ln - 1).value);
  }

  lemma WarrantedOccurs(lines: seq<string>, m: Message)
    requires Warranted(lines, m)
    ensures m.bullet in BulletsOf(Occurrences(lines, |lines|))
  {
    var w := if m.RecentAndOlder? then Exactly(m.recent) else Exactly(UNRELEASED);
    assert Somewhere(lines, m.bullet, w);
    SomewhereListed(lines, m.bullet, w);
  }

  /** Soundness and completeness: the report holds exactly the warranted messages. */
  lemma ReportExact(lines: seq<string>, m: Message)
    ensures m in Report(lines) <==> Warranted(lines, m)
  {
    var found := Occurrences(lines, |lines|);
    var recent := FirstReleased(lines, |lines|);
    MessagesForExact(lines, m.bullet, m);
    if m in Report(lines) {
      var b := ReportedIsSaid(BulletsOf(found), found, recent, m);
      MessagesForExact(lines, b, m);
    }
    if Warranted(lines, m) {
      WarrantedOccurs(lines, m);
      SaidIsReported(BulletsOf(found), found, recent, m.bullet, m);
    }
  }

  // ------------------------------------------------------------ the report, read off the lines

  /** Line number `ln` holds this bullet, and the last header above it is that of `section`. */
  ghost predicate BulletLine(lines: seq<string>, ln: nat, section: string, bullet: string) {
    && 0 < ln <= |lines| && section != ""
    && Header(lines[ln - 1]).None? && Bullet(lines[ln - 1]).Some? && Normalize(Bullet(lines[ln - 1]).value) == bullet
    && UnderSection(lines, ln - 1, section)
  }

  /** Of the headers among the first `n` lines the last is that of `section`. */
  ghost predicate UnderSection(lines: seq<string>, n: nat, section: string)
    requires n <= |lines|
  {
    exists k :: 0 <= k < n && Header(lines[k]) == Some(section) && forall j :: k < j < n ==> Header(lines[j]).None?
  }

  lemma {:induction false} SectionSource(lines: seq<string>, n: nat, section: string)
    requires n <= |lines| && section != ""
    ensures SectionAfter(lines, n) == section <==> UnderSection(lines, n, section)
  {
    if n > 0 {
      SectionSource(lines, n - 1, section);
      if Header(lines[n - 1]).None? {
        assert UnderSection(lines, n, section) <==> UnderSection(lines, n - 1, section) by {
          if UnderSection(lines, n - 1, section) {
            var k :| 0 <= k < n - 1 && Header(lines[k]) == Some(section)
                     && forall j :: k < j < n - 1 ==> Header(lines[j]).None?;
            assert forall j :: k < j < n ==> Header(lines[j]).None?;
          }
        }
      }
    }
  }

  lemma BulletLineExact(lines: seq<string>, ln: nat, section: string, bullet: string)
    ensures BulletLine(lines, ln, section, bullet) <==>
              0 < ln <= |lines| && BulletAt(lines, ln - 1) == Some(Occurrence(bullet, Place(section, ln)))
  {
    if 0 < ln <= |lines| && section != "" {
      SectionSource(lines, ln - 1, section);
    }
  }

  lemma OccursInSection(lines: seq<string>, bullet: string, section: string, ln: nat)
    ensures Occurs(lines, bullet, Exactly(section), ln) <==> BulletLine(lines, ln, section, bullet)
  {
    BulletLineExact(lines, ln, section, bullet);
  }

  /** In order, the numbers of all lines that hold this bullet under headers of `section`. */
  ghost predicate AllLines(numbers: seq<nat>, lines: seq<string>, section: string, bullet: string) {
    && (forall i, j :: 0 <= i < j < |numbers| ==> numbers[i] < numbers[j])
    && (forall ln: nat :: ln in numbers <==> BulletLine(lines, ln, section, bullet))
  }

  /** This bullet stands somewhere under a header of `section`. */
  ghost predicate Under(lines: seq<string>, section: string, bullet: string) {
    exists ln: nat :: BulletLine(lines, ln, section, bullet)
  }

  lemma LinesOfSection(lines: seq<string>, bullet: string, section: string, numbers: seq<nat>)
    ensures LinesAre(numbers, lines, bullet, Exactly(section)) <==> AllLines(numbers, lines, section, bullet)
  {
    forall ln: nat
      ensures Occurs(lines, bullet, Exactly(section), ln) <==> BulletLine(lines, ln, section, bullet)
    {
      OccursInSection(lines, bullet, section, ln);
    }
  }

  lemma OccursCovered(lines: seq<string>, bullet: string, w: Which, s: string)
    requires Covers(w, s)
    ensures (exists ln: nat :: Occurs(lines, bullet, w, ln) && BulletAt(lines, ln - 1).value.place.section == s)
            <==> Under(lines, s, bullet)
  {
    forall ln: nat
      ensures Occurs(lines, bullet, w, ln) && BulletAt(lines, ln - 1).value.place.section == s
              <==> BulletLine(lines, ln, s, bullet)
    {
      BulletLineExact(lines, ln, s, bullet);
    }
  }

  lemma NamesOfSections(lines: seq<string>, bullet: string, w: Which, names: set<string>)
    ensures NamesAre(names, lines, bullet, w) <==>
              forall s :: s in names <==> Covers(w, s) && Under(lines, s, bullet)
  {
    forall s
      ensures (exists ln: nat :: Occurs(lines, bullet, w, ln) && BulletAt(lines, ln - 1).value.place.section == s)
              <==> Covers(w, s) && Under(lines, s, bullet)
    {
      if Covers(w, s) { OccursCovered(lines, bullet, w, s); }
    }
  }

  lemma SomewhereNumbered(lines: seq<string>, bullet: string, w: Which, numbers: seq<nat>)
    requires LinesAre(numbers, lines, bullet, w)
    ensures Somewhere(lines, bullet, w) <==> numbers != []
    ensures w == Exactly(UNRELEASED) ==> (Repeated(lines, bullet) <==> |numbers| > 1)
  {
    LinesAreFound(lines, bullet, w, numbers);
    FoundSomewhere(lines, bullet, w);
    FoundTwice(lines, bullet);
  }

  lemma SomewhereNamed(lines: seq<string>, bullet: string, w: Which, names: set<string>)
    requires NamesAre(names, lines, bullet, w)
    ensures Somewhere(lines, bullet, w) <==> names != {}
  {
    NamesAreFound(lines, bullet, w, names);
    FoundSomewhere(lines, bullet, w);
    var places := Found(lines, bullet, w);
    if places != [] { assert places[0].section in Names(places); }
  }

  /** A repeated bullet is reported with all its line numbers under Unreleased, when there is
      more than one. */
  lemma RepeatedIsReported(lines: seq<string>, b: string, numbers: seq<nat>)
    ensures RepeatedInUnreleased(b, numbers) in Report(lines) <==>
              |numbers| > 1 && AllLines(numbers, lines, "Unreleased version", b)
  {
    ReportExact(lines, RepeatedInUnreleased(b, numbers));
    LinesOfSection(lines, b, UNRELEASED, numbers);
    if LinesAre(numbers, lines, b, Exactly(UNRELEASED)) {
      SomewhereNumbered(lines, b, Exactly(UNRELEASED), numbers);
    }
  }

  /** A bullet kept under Unreleased after a release is reported with all its line numbers
      there and the names of all released sections that hold it. */
  lemma KeptIsReported(lines: seq<string>, b: string, numbers: seq<nat>, released: set<string>)
    ensures UnreleasedAndReleased(b, numbers, released) in Report(lines) <==>
              && numbers != [] && AllLines(numbers, lines, "Unreleased version", b)
              && released != {} && forall s :: s in released <==> Released(s) && Under(lines, s, b)
  {
    KeptNumbered(lines, b, numbers, released);
    LinesOfSection(lines, b, UNRELEASED, numbers);
    NamesOfSections(lines, b, AnyReleased, released);
  }

  lemma KeptNumbered(lines: seq<string>, b: string, numbers: seq<nat>, released: set<string>)
    ensures UnreleasedAndReleased(b, numbers, released) in Report(lines) <==>
              && numbers != [] && LinesAre(numbers, lines, b, Exactly(UNRELEASED))
              && released != {} && NamesAre(released, lines, b, AnyReleased)
  {
    ReportExact(lines, UnreleasedAndReleased(b, numbers, released));
    if LinesAre(numbers, lines, b, Exactly(UNRELEASED)) && NamesAre(released, lines, b, AnyReleased) {
      SomewhereNumbered(lines, b, Exactly(UNRELEASED), numbers);
      SomewhereNamed(lines, b, AnyReleased, released);
    }
  }

  /** The first released section in document order. */
  ghost predicate IsFirstReleased(lines: seq<string>, section: string) {
    exists k :: 0 <= k < |lines| && Header(lines[k]) == Some(section) && Released(section)
                && forall j :: 0 <= j < k && Header(lines[j]).Some? ==> !Released(Header(lines[j]).value)
  }

  lemma {:induction false} FirstReleasedExact(lines: seq<string>, n: nat, section: string)
    requires n <= |lines|
    ensures FirstReleased(lines, n) == Some(section) <==>
              exists k :: 0 <= k < n && Header(lines[k]) == Some(section) && Released(section)
                          && forall j :: 0 <= j < k && Header(lines[j]).Some? ==> !Released(Header(lines[j]).value)
    ensures FirstReleased(lines, n).None? ==>
              forall j :: 0 <= j < n && Header(lines[j]).Some? ==> !Released(Header(lines[j]).value)
  {
    if n > 0 {
      FirstReleasedExact(lines, n - 1, section);
      if FirstReleased(lines, n - 1).Some? {
        FirstReleasedExact(lines, n - 1, FirstReleased(lines, n - 1).value);
      }
    }
  }

  /** A bullet that drifted is reported with all its line numbers in the first released
      section and the names of all other released sections that hold it, unless it stands
      under Unreleased. */
  lemma DriftedIsReported(lines: seq<string>, b: string, recent: string, numbers: seq<nat>, older: set<string>)
    ensures RecentAndOlder(b, recent, numbers, older) in Report(lines) <==>
              && IsFirstReleased(lines, recent)
              && !Under(lines, "Unreleased version", b)
              && numbers != [] && AllLines(numbers, lines, recent, b)
              && older != {} && forall s :: s in older <==> Released(s) && s != recent && Under(lines, s, b)
  {
    DriftedNumbered(lines, b, recent, numbers, older);
    assert FirstReleased(lines, |lines|) == Some(recent) <==> IsFirstReleased(lines, recent) by {
      FirstReleasedExact(lines, |lines|, recent);
    }
    LinesOfSection(lines, b, recent, numbers);
    NamesOfSections(lines, b, OlderThan(recent), older);
    NotUnreleased(lines, b);
  }

  lemma DriftedNumbered(lines: seq<string>, b: string, recent: string, numbers: seq<nat>, older: set<string>)
    ensures RecentAndOlder(b, recent, numbers, older) in Report(lines) <==>
              && FirstReleased(lines, |lines|) == Some(recent)
              && !Somewhere(lines, b, Exactly(UNRELEASED))
              && numbers != [] && LinesAre(numbers, lines, b, Exactly(recent))
              && older != {} && NamesAre(older, lines, b, OlderThan(recent))
  {
    ReportExact(lines, RecentAndOlder(b, recent, numbers, older));
    if LinesAre(numbers, lines, b, Exactly(recent)) && NamesAre(older, lines, b, OlderThan(recent)) {
      SomewhereNumbered(lines, b, Exactly(recent), numbers);
      SomewhereNamed(lines, b, OlderThan(recent), older);
    }
  }

  lemma NotUnreleased(lines: seq<string>, b: string)
    ensures Somewhere(lines, b, Exactly(UNRELEASED)) <==> Under(lines, "Unreleased version", b)
  {
    forall ln: nat
      ensures Occurs(lines, b, Exactly(UNRELEASED), ln) <==> BulletLine(lines, ln, UNRELEASED, b)
    {
      OccursInSection(lines, b, UNRELEASED, ln);
    }
  }

  /** The check passes exactly when no bullet is repeated under Unreleased, kept there
      after its release, or drifted into the latest release. */
  lemma CleanExactly(lines: seq<string>)
    ensures Report(lines) == [] <==>
            forall b :: !Repeated(lines, b) && !Kept(lines, b) && !Drifted(lines, b)
  {
    if Report(lines) != [] {
      var m := Report(lines)[0];
      assert m in Report(lines);
      ReportExact(lines, m);
    }
    forall b | Repeated(lines, b) || Kept(lines, b) || Drifted(lines, b)
      ensures Report(lines) != []
    {
      var m := MessageAbout(lines, b);
      Warrants(lines, b);
      ReportExact(lines, m);
    }
  }

  function MessageAbout(lines: seq<string>, b: string): Message
    requires Repeated(lines, b) || Kept(lines, b) || Drifted(lines, b)
  {
    if Repeated(lines, b) then RepeatedInUnreleased(b, Numbers(Found(lines, b, Exactly(UNRELEASED))))
    else if Kept(lines, b) then
      UnreleasedAndReleased(b, Numbers(Found(lines, b, Exactly(UNRELEASED))), Names(Found(lines, b, AnyReleased)))
    else
      var recent := FirstReleased(lines, |lines|).value;
      RecentAndOlder(b, recent, Numbers(Found(lines, b, Exactly(recent))), Names(Found(lines, b, OlderThan(recent))))
  }

  lemma Warrants(lines: seq<string>, b: string)
    requires Repeated(lines, b) || Kept(lines, b) || Drifted(lines, b)
    ensures Warranted(lines, MessageAbout(lines, b))
  {
    match MessageAbout(lines, b)
    case RepeatedInUnreleased(_, numbers) =>
      LinesAreFound(lines, b, Exactly(UNRELEASED), numbers);
    case UnreleasedAndReleased(_, numbers, released) =>
      LinesAreFound(lines, b, Exactly(UNRELEASED), numbers);
      NamesAreFound(lines, b, AnyReleased, released);
    case RecentAndOlder(_, recent, numbers, older) =>
      LinesAreFound(lines, b, Exactly(recent), numbers);
      NamesAreFound(lines, b, OlderThan(recent), older);
  }

  /** No bullet is told both to leave Unreleased and to move there. */
  lemma NoContradiction(lines: seq<string>, m: Message, n: Message)
    requires m in Report(lines) && n in Report(lines) && m.bullet == n.bullet
    ensures m.RecentAndOlder? <==> n.RecentAndOlder?
  {
    ReportExact(lines, m);
    ReportExact(lines, n);
  }

  lemma DistinctAppend<T>(a: seq<T>, b: seq<T>)
    requires Distinct(a) && Distinct(b) && forall x :: x in a ==> x !in b
    ensures Distinct(a + b)
  {
    forall i, j | 0 <= i < j < |a + b|
      ensures (a + b)[i] != (a + b)[j]
    {
      assert i < |a| ==> (a + b)[i] in a;
      assert j >= |a| ==> (a + b)[j] in b;
    }
  }

  lemma MessagesForDistinct(bullet: string, places: seq<Place>, recent: Option<string>)
    ensures Distinct(MessagesFor(bullet, places, recent))
    ensures forall m :: m in MessagesFor(bullet, places, recent) ==> m.bullet == bullet
  {
  }

  lemma {:induction false} MessagesOfDistinct(bullets: seq<string>, found: seq<Occurrence>, recent: Option<string>)
    requires Distinct(bullets)
    ensures Distinct(MessagesOf(bullets, found, recent))
    ensures forall m :: m in MessagesOf(bullets, found, recent) ==> m.bullet in bullets
  {
    if bullets != [] {
      var last := |bullets| - 1;
      var rest := bullets[..last];
      var before := MessagesOf(rest, found, recent);
      var said := MessagesFor(bullets[last], PlacesOf(found, bullets[last]), recent);
      MessagesOfDistinct(rest, found, recent);
      MessagesForDistinct(bullets[last], PlacesOf(found, bullets[last]), recent);
      DistinctAppend(before, said);
    }
  }

  /** Every message is reported once. */
  lemma ReportedOnce(lines: seq<string>)
    ensures Distinct(Report(lines))
  {
    var found := Occurrences(lines, |lines|);
    BulletsExact(found);
    MessagesOfDistinct(BulletsOf(found), found, FirstReleased(lines, |lines|));
  }
}
