/** The version-bump computation of the VersionUp context-menu command: a
    parsed four-part assembly version and the segment the user picked go in;
    the bumped version, its dot-joined text and the notification message
    come out. */
module ContextMenu {
  import opened Text

  const INT32_MAX: int := 0x7fff_ffff
  const INT32_MIN: int := -0x8000_0000

  predicate IsInt32(x: int) {
    INT32_MIN <= x <= INT32_MAX
  }

  /** The four menu commands, highest-order segment first. */
  datatype VersionType = Major | Minor | Build | Revision

  /** The four segments of a version, as C# `int`s. */
  datatype Ver = Ver(major: int, minor: int, build: int, revision: int)

  datatype Option<T> = None | Some(value: T)

  /** Index of the segment a command bumps: 0 is major, 3 is revision. */
  function Position(t: VersionType): (p: nat)
    ensures p < 4
  {
    match t
    case Major => 0
    case Minor => 1
    case Build => 2
    case Revision => 3
  }

  /** Each command names its own segment, and every segment has a command. */
  lemma PositionOneToOne(t: VersionType, u: VersionType, p: nat)
    requires p < 4
    ensures Position(t) == Position(u) ==> t == u
    ensures exists c :: Position(c) == p
  {
    if p == 0 { assert Position(Major) == p; }
    else if p == 1 { assert Position(Minor) == p; }
    else if p == 2 { assert Position(Build) == p; }
    else { assert Position(Revision) == p; }
  }

  function Segment(v: Ver, i: nat): int
    requires i < 4
  {
    if i == 0 then v.major else if i == 1 then v.minor else if i == 2 then v.build else v.revision
  }

  /** What a parsed `System.Version` can hold: major and minor present and
      non-negative, build and revision either non-negative or -1 for "absent",
      a revision only when there is a build, every segment an `int`. */
  predicate IsParsed(v: Ver) {
    && 0 <= v.major <= INT32_MAX
    && 0 <= v.minor <= INT32_MAX
    && -1 <= v.build <= INT32_MAX
    && -1 <= v.revision <= INT32_MAX
    && (v.build == -1 ==> v.revision == -1)
  }

  predicate NonNegative(v: Ver) {
    v.major >= 0 && v.minor >= 0 && v.build >= 0 && v.revision >= 0
  }

  /** `x + 1` on a C# `int` in an unchecked context: wraps past int.MaxValue. */
  function Inc32(x: int): (r: int)
    requires IsInt32(x)
    ensures IsInt32(r)
    ensures x < INT32_MAX ==> r == x + 1
    ensures x == INT32_MAX ==> r == INT32_MIN
    ensures r == (x + 1 - INT32_MIN) % 0x1_0000_0000 + INT32_MIN
  {
    if x == INT32_MAX then INT32_MIN else x + 1
  }

  /** The cascade rule: every segment of higher order than the target is
      copied, the target is incremented, every segment below it is 0. */
  ghost predicate IsCascadeBump(v: Ver, t: VersionType, r: Ver)
    requires IsParsed(v)
  {
    forall i :: 0 <= i < 4 ==>
      Segment(r, i) == (if i < Position(t) then Segment(v, i)
                        else if i == Position(t) then Inc32(Segment(v, i))
                        else 0)
  }

  /** The switch of the command: the four result segments start at 0 and the
      chosen case assigns those above and at the target. */
  function Bump(v: Ver, t: VersionType): (r: Ver)
    requires IsParsed(v)
    ensures IsCascadeBump(v, t, r)
  {
    match t
    case Major => Ver(Inc32(v.major), 0, 0, 0)
    case Minor => Ver(v.major, Inc32(v.minor), 0, 0)
    case Build => Ver(v.major, v.minor, Inc32(v.build), 0)
    case Revision => Ver(v.major, v.minor, v.build, Inc32(v.revision))
  }

  /** The cascade rule determines the result: Bump is the only version that
      satisfies it. */
  lemma BumpUnique(v: Ver, t: VersionType, r: Ver)
    requires IsParsed(v)
    requires IsCascadeBump(v, t, r)
    ensures r == Bump(v, t)
  {
    var b := Bump(v, t);
    assert Segment(r, 0) == Segment(b, 0);
    assert Segment(r, 1) == Segment(b, 1);
    assert Segment(r, 2) == Segment(b, 2);
    assert Segment(r, 3) == Segment(b, 3);
  }

  lemma BumpMajor(v: Ver)
    requires IsParsed(v) && v.major < INT32_MAX
    ensures Bump(v, Major) == Ver(v.major + 1, 0, 0, 0)
  {
  }

  lemma BumpMinor(v: Ver)
    requires IsParsed(v) && v.minor < INT32_MAX
    ensures Bump(v, Minor) == Ver(v.major, v.minor + 1, 0, 0)
  {
  }

  lemma BumpBuild(v: Ver)
    requires IsParsed(v) && v.build < INT32_MAX
    ensures Bump(v, Build) == Ver(v.major, v.minor, v.build + 1, 0)
  {
  }

  lemma BumpRevision(v: Ver)
    requires IsParsed(v) && v.revision < INT32_MAX
    ensures Bump(v, Revision) == Ver(v.major, v.minor, v.build, v.revision + 1)
  {
  }

  /** An absent build (-1) becomes 0 under a Build bump, and is carried into
      the result unchanged under a Revision bump, beside a revision of 0. */
  lemma BumpAbsentBuild(v: Ver)
    requires IsParsed(v) && v.build == -1
    ensures Bump(v, Build) == Ver(v.major, v.minor, 0, 0)
    ensures Bump(v, Revision) == Ver(v.major, v.minor, -1, 0)
  {
  }

  /** Version order as `System.Version` compares: segment by segment from
      major down, an absent segment (-1) below every present one. */
  predicate Less(a: Ver, b: Ver) {
    || a.major < b.major
    || (a.major == b.major && a.minor < b.minor)
    || (a.major == b.major && a.minor == b.minor && a.build < b.build)
    || (a.major == b.major && a.minor == b.minor && a.build == b.build && a.revision < b.revision)
  }

  /** Unless the target segment is already int.MaxValue, the new version is
      strictly greater than the old one. */
  lemma BumpIncreases(v: Ver, t: VersionType)
    requires IsParsed(v) && Segment(v, Position(t)) < INT32_MAX
    ensures Less(v, Bump(v, t))
  {
  }

  /** At int.MaxValue the increment of any target wraps and the "new"
      version is smaller. */
  lemma BumpWrapsAtInt32Max(v: Ver, t: VersionType)
    requires IsParsed(v) && Segment(v, Position(t)) == INT32_MAX
    ensures Segment(Bump(v, t), Position(t)) == INT32_MIN
    ensures Less(Bump(v, t), v)
  {
  }

  /** The bump raises the version exactly when its target is below the bound. */
  lemma BumpIncreasesIffBelowBound(v: Ver, t: VersionType)
    requires IsParsed(v)
    ensures Less(v, Bump(v, t)) <==> Segment(v, Position(t)) < INT32_MAX
  {
  }

  /** `w` changes some segment at or above position `p` relative to `v`. */
  predicate ChangesAtOrAbove(v: Ver, w: Ver, p: nat)
    requires p < 4
  {
    exists i :: 0 <= i <= p && Segment(w, i) != Segment(v, i)
  }

  /** Bump(v, t) is the next release at level t: no full version above `v`
      that changes segment t or a higher one comes before it. */
  lemma BumpIsNextAtLevel(v: Ver, t: VersionType, w: Ver)
    requires IsParsed(v) && Segment(v, Position(t)) < INT32_MAX
    requires NonNegative(w) && Less(v, w) && ChangesAtOrAbove(v, w, Position(t))
    ensures !Less(w, Bump(v, t))
  {
  }

  /** The new version text: always four dot-joined decimal fields, in the
      order major.minor.build.revision. */
  function Format(v: Ver): (s: string)
    ensures ' ' !in s
  {
    Decimal(v.major) + "." + Decimal(v.minor) + "." + Decimal(v.build) + "." + Decimal(v.revision)
  }

  /** Splitting the text on '.' gives exactly the four rendered segments. */
  lemma FormatFields(v: Ver)
    ensures Split(Format(v), '.') == [Decimal(v.major), Decimal(v.minor), Decimal(v.build), Decimal(v.revision)]
  {
    var a, b, c, d := Decimal(v.major), Decimal(v.minor), Decimal(v.build), Decimal(v.revision);
    assert Format(v) == a + ['.'] + (b + ['.'] + (c + ['.'] + d));
    SplitAfterField(a, '.', b + ['.'] + (c + ['.'] + d));
    SplitAfterField(b, '.', c + ['.'] + d);
    SplitAfterField(c, '.', d);
    SplitNoSeparator(d, '.');
  }

  /** A strict reader of the four-field layout: exactly four '.'-separated
      fields, each a non-empty run of decimal digits. */
  function ParseFour(s: string): Option<Ver> {
    var f := Split(s, '.');
    if |f| == 4 && (forall k :: 0 <= k < 4 ==> |f[k]| > 0 && AllDigits(f[k])) then
      Some(Ver(DigitsValue(f[0]), DigitsValue(f[1]), DigitsValue(f[2]), DigitsValue(f[3])))
    else
      None
  }

  /** A version with non-negative segments reads back from its text. */
  lemma FormatRoundTrip(v: Ver)
    requires NonNegative(v)
    ensures ParseFour(Format(v)) == Some(v)
  {
    FormatFields(v);
    DigitsRoundTrip(v.major);
    DigitsRoundTrip(v.minor);
    DigitsRoundTrip(v.build);
    DigitsRoundTrip(v.revision);
  }

  /** A text with a negative segment is refused by the reader. */
  lemma FormatNegativeRefused(v: Ver)
    requires !NonNegative(v)
    ensures ParseFour(Format(v)) == None
  {
    FormatFields(v);
  }

  /** Every bump except a Revision bump of a version without a build, and
      short of the int.MaxValue wrap, yields a well-formed version whose text
      reads back to it. */
  lemma BumpOutputRoundTrips(v: Ver, t: VersionType)
    requires IsParsed(v) && Segment(v, Position(t)) < INT32_MAX
    requires t != Revision || v.build >= 0
    ensures IsParsed(Bump(v, t)) && NonNegative(Bump(v, t))
    ensures ParseFour(Format(Bump(v, t))) == Some(Bump(v, t))
  {
    FormatRoundTrip(Bump(v, t));
  }

  /** As written, a Revision bump of a version without a build ("1.2")
      produces a build of -1 beside a revision of 0: no `System.Version`
      has that shape, and its text has a "-1" field. */
  lemma RevisionBumpWithoutBuild(v: Ver)
    requires IsParsed(v) && v.build == -1
    ensures !IsParsed(Bump(v, Revision))
    ensures ParseFour(Format(Bump(v, Revision))) == None
  {
    FormatNegativeRefused(Bump(v, Revision));
  }

  lemma RevisionBumpWithoutBuildExample()
    ensures Format(Bump(Ver(1, 2, -1, -1), Revision)) == "1.2.-1.0"
  {
  }

  /** The bump with an absent build read as 0 in the Revision case. */
  function BumpCorrected(v: Ver, t: VersionType): (r: Ver)
    requires IsParsed(v)
    ensures Segment(v, Position(t)) < INT32_MAX ==> IsParsed(r) && NonNegative(r) && Less(v, r)
    ensures t != Revision || v.build >= 0 ==> r == Bump(v, t)
    ensures t == Revision && v.build == -1 ==> r == Ver(v.major, v.minor, 0, 0)
  {
    match t
    case Revision => Ver(v.major, v.minor, if v.build == -1 then 0 else v.build, Inc32(v.revision))
    case _ => Bump(v, t)
  }

  lemma BumpCorrectedRoundTrips(v: Ver, t: VersionType)
    requires IsParsed(v) && Segment(v, Position(t)) < INT32_MAX
    ensures ParseFour(Format(BumpCorrected(v, t))) == Some(BumpCorrected(v, t))
  {
    FormatRoundTrip(BumpCorrected(v, t));
  }

  /** The confirmation message: project name, old version text, an arrow and
      the new version text. */
  function Summary(name: string, oldText: string, newText: string): (msg: string)
    ensures |msg| == |name| + |oldText| + |newText| + 5
    ensures msg[..|name|] == name && msg[|name|] == ' '
    ensures msg[|name| + 1..|name| + 1 + |oldText|] == oldText
    ensures msg[|name| + 1 + |oldText|..|name| + 5 + |oldText|] == " -> "
    ensures msg[|msg| - |newText|..] == newText
  {
    name + " " + oldText + " -> " + newText
  }

  /** The last word of the message is the new version text. */
  lemma SummaryEndsWithNewVersion(name: string, oldText: string, v: Ver)
    ensures LastWord(Summary(name, oldText, Format(v))) == Format(v)
  {
    assert Summary(name, oldText, Format(v)) == (name + " " + oldText + " ->") + " " + Format(v);
    LastWordAfterSpace(name + " " + oldText + " ->", Format(v));
  }
}
