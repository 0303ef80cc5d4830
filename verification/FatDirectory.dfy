/** Names, lookup and creation of files in the directories of kernel/fat.cpp, on directory listings. */
module FatDirectory {

  // ---------------------------------------------------------------- names

  const NAME_LENGTH := 11
  const DELETED: char := 0xe5 as char
  const DIRECTORY: nat := 0x10

  /** The fields of a directory entry that this code uses; the name is in 8.3 form, padded with blanks. */
  datatype DirEntry = DirEntry(name: seq<char>, attr: nat, first: nat, size: nat) {
    predicate Zero() {
      |name| > 0 && name[0] == '\0'
    }

    predicate Free() {
      |name| > 0 && (name[0] == '\0' || name[0] == DELETED)
    }
  }

  function Upper(c: char): char {
    if 'a' <= c <= 'z' then c - 32 as char else c
  }

  function Blanks(n: nat): (r: seq<char>)
    ensures |r| == n
  {
    seq(n, _ => ' ')
  }

  /** The 8.3 form that NameIsEqual compares with: a dot jumps to the extension. */
  function LookupName(elem: seq<char>, i: nat, i83: nat, name83: seq<char>): (r: seq<char>)
    requires |name83| == NAME_LENGTH && i <= |elem|
    ensures |r| == NAME_LENGTH
    decreases |elem| - i
  {
    if i == |elem| || i83 >= NAME_LENGTH then name83
    else if elem[i] == '.' then LookupName(elem, i + 1, 8, name83)
    else LookupName(elem, i + 1, i83 + 1, name83[i83 := Upper(elem[i])])
  }

  function Name83(elem: seq<char>): (r: seq<char>)
    ensures |r| == NAME_LENGTH
  {
    LookupName(elem, 0, 0, Blanks(NAME_LENGTH))
  }

  /** Position of the last dot, or the length. */
  function LastDot(elem: seq<char>, n: nat): (r: nat)
    requires n <= |elem|
    ensures r <= |elem|
    ensures r < |elem| ==> r < n && elem[r] == '.' && forall i | r < i < n :: elem[i] != '.'
    ensures r == |elem| ==> forall i | 0 <= i < n :: elem[i] != '.'
  {
    if n == 0 then |elem|
    else if elem[n - 1] == '.' then n - 1
    else LastDot(elem, n - 1)
  }

  /** At most width upper-case characters, padded with blanks. */
  function Padded(s: seq<char>, width: nat): (r: seq<char>)
    ensures |r| == width
  {
    seq(width, i requires 0 <= i => if i < |s| then Upper(s[i]) else ' ')
  }

  /** The 8.3 form that SetFileName stores: the last dot separates the extension. */
  function ShortName(name: seq<char>): (r: seq<char>)
    ensures |r| == NAME_LENGTH
  {
    var dot := LastDot(name, |name|);
    if dot < |name| then Padded(name[..dot], 8) + Padded(name[dot + 1..], 3)
    else Padded(name, 8) + Blanks(3)
  }

  /** The position of the first dot, or the length. */
  function FirstDot(elem: seq<char>): (r: nat)
    ensures r <= |elem| && forall i | 0 <= i < r :: elem[i] != '.'
    ensures r < |elem| ==> elem[r] == '.'
  {
    if elem == [] then 0
    else if elem[0] == '.' then 0
    else 1 + FirstDot(elem[1..])
  }

  /** A name with a run of characters written over it from position at on, as far as it is long. */
  function Overlay(name83: seq<char>, at: nat, run: seq<char>): (r: seq<char>)
    ensures |r| == |name83|
  {
    seq(|name83|, k requires 0 <= k < |name83| => if at <= k < at + |run| then Upper(run[k - at]) else name83[k])
  }

  /** NameIsEqual writes characters that are no dots one behind the other, as long as there are places. */
  lemma {:induction false} LookupWrites(elem: seq<char>, i: nat, i83: nat, name83: seq<char>, n: nat)
    requires |name83| == NAME_LENGTH && i + n <= |elem| && i83 + n <= NAME_LENGTH
    requires forall j | i <= j < i + n :: elem[j] != '.'
    ensures LookupName(elem, i, i83, name83) == LookupName(elem, i + n, i83 + n, Overlay(name83, i83, elem[i..i + n]))
    decreases n
  {
    if n == 0 {
      assert Overlay(name83, i83, elem[i..i]) == name83;
    } else {
      LookupWrites(elem, i + 1, i83 + 1, name83[i83 := Upper(elem[i])], n - 1);
      assert Overlay(name83[i83 := Upper(elem[i])], i83 + 1, elem[i + 1..i + n])
          == Overlay(name83, i83, elem[i..i + n]);
    }
  }

  /** What the characters behind the eighth leave in the three places of the extension: each dot starts over. */
  function SeenExtension(places: seq<char>, rest: seq<char>): (r: seq<char>)
    ensures |r| == |places|
    decreases |rest|
  {
    var e := FirstDot(rest);
    var written := Overlay(places, 0, rest[..e]);
    if e >= 3 || e == |rest| then written else SeenExtension(written, rest[e + 1..])
  }

  /** A run over the extension, on the whole name and on its last three places. */
  lemma OverlayExtension(name83: seq<char>, run: seq<char>, n: nat)
    requires |name83| == NAME_LENGTH && (n == |run| || 3 <= n <= |run|)
    ensures Overlay(name83, 8, run[..n])[..8] == name83[..8]
    ensures Overlay(name83, 8, run[..n])[8..] == Overlay(name83[8..], 0, run)
  {
  }

  /** From the extension on, NameIsEqual reads part after part. */
  lemma {:induction false} LookupExtension(elem: seq<char>, i: nat, name83: seq<char>)
    requires |name83| == NAME_LENGTH && i <= |elem|
    ensures LookupName(elem, i, 8, name83)[..8] == name83[..8]
    ensures LookupName(elem, i, 8, name83)[8..] == SeenExtension(name83[8..], elem[i..])
    decreases |elem| - i
  {
    var rest := elem[i..];
    var e := FirstDot(rest);
    var n := if e < 3 then e else 3;
    assert forall j | i <= j < i + n :: elem[j] == rest[j - i];
    assert elem[i..i + n] == rest[..e][..n];
    LookupWrites(elem, i, 8, name83, n);
    OverlayExtension(name83, rest[..e], n);
    hide Overlay;
    if e < 3 && e < |rest| {
      assert elem[i + e] == rest[e];
      assert elem[i + e + 1..] == rest[e + 1..];
      LookupExtension(elem, i + e + 1, Overlay(name83, 8, rest[..e][..n]));
    }
  }

  lemma OverlayIsPadded(base: seq<char>, ext: seq<char>)
    requires |base| <= 8
    ensures Overlay(Overlay(Blanks(NAME_LENGTH), 0, base), 8, ext) == Padded(base, 8) + Padded(ext, 3)
    ensures Overlay(Blanks(NAME_LENGTH), 0, base) == Padded(base, 8) + Blanks(3)
  {
  }

  lemma NameWithoutDot(elem: seq<char>)
    requires |elem| <= 8 && forall i | 0 <= i < |elem| :: elem[i] != '.'
    ensures Name83(elem) == Padded(elem, 8) + Blanks(3)
  {
    hide LookupName, Overlay, Padded;
    LookupWrites(elem, 0, 0, Blanks(NAME_LENGTH), |elem|);
    assert elem[0..|elem|] == elem;
    LookupEnds(elem, |elem|, |elem|, Overlay(Blanks(NAME_LENGTH), 0, elem));
    OverlayIsPadded(elem, []);
  }

  lemma NameWithDot(elem: seq<char>, dot: nat)
    requires dot < |elem| && dot <= 8 && elem[dot] == '.'
    requires forall i | 0 <= i < |elem| && i != dot :: elem[i] != '.'
    ensures Name83(elem) == Padded(elem[..dot], 8) + Padded(elem[dot + 1..], 3)
  {
    hide LookupName, Overlay, Padded;
    LookupWrites(elem, 0, 0, Blanks(NAME_LENGTH), dot);
    assert elem[0..dot] == elem[..dot];
    var base := Overlay(Blanks(NAME_LENGTH), 0, elem[..dot]);
    LookupJumps(elem, dot, dot, base);
    LookupExtension(elem, dot + 1, base);
    assert FirstDot(elem[dot + 1..]) == |elem[dot + 1..]|;
    OverlayIsPadded(elem[..dot], elem[dot + 1..]);
    OverlayIsSplit(base, elem[dot + 1..]);
    assert elem[dot + 1..][..|elem[dot + 1..]|] == elem[dot + 1..];
    assert LookupName(elem, dot + 1, 8, base)
        == LookupName(elem, dot + 1, 8, base)[..8] + LookupName(elem, dot + 1, 8, base)[8..];
  }

  lemma LookupEnds(elem: seq<char>, i: nat, i83: nat, name83: seq<char>)
    requires |name83| == NAME_LENGTH && i == |elem|
    ensures LookupName(elem, i, i83, name83) == name83
  {
  }

  lemma LookupJumps(elem: seq<char>, i: nat, i83: nat, name83: seq<char>)
    requires |name83| == NAME_LENGTH && i < |elem| && elem[i] == '.' && i83 < NAME_LENGTH
    ensures LookupName(elem, i, i83, name83) == LookupName(elem, i + 1, 8, name83)
  {
  }

  lemma OverlayIsSplit(name83: seq<char>, ext: seq<char>)
    requires |name83| == NAME_LENGTH
    ensures Overlay(name83, 8, ext) == name83[..8] + Overlay(name83[8..], 0, ext)
  {
  }

  /** A name of at most 8 characters, or with its only dot behind at most 8: stored and looked up alike. */
  lemma ShortNameIsLookedUp(elem: seq<char>)
    requires FirstDot(elem) <= 8 && LastDot(elem, |elem|) == FirstDot(elem)
    ensures ShortName(elem) == Name83(elem)
  {
    hide FirstDot, LastDot, LookupName, Padded, Name83;
    if FirstDot(elem) < |elem| {
      NameWithDot(elem, FirstDot(elem));
    } else {
      NameWithoutDot(elem);
    }
  }

  lemma {:induction false} LookupNameHasNoDot(elem: seq<char>, i: nat, i83: nat, name83: seq<char>)
    requires |name83| == NAME_LENGTH && i <= |elem| && '.' !in name83
    ensures '.' !in LookupName(elem, i, i83, name83)
    decreases |elem| - i
  {
    if i < |elem| && i83 < NAME_LENGTH {
      if elem[i] == '.' {
        LookupNameHasNoDot(elem, i + 1, 8, name83);
      } else {
        LookupNameHasNoDot(elem, i + 1, i83 + 1, name83[i83 := Upper(elem[i])]);
      }
    }
  }

  /** A dot in front of the last one is stored as a character of the name. */
  lemma DotIsStored(elem: seq<char>)
    requires FirstDot(elem) < 8 && FirstDot(elem) < LastDot(elem, |elem|) < |elem|
    ensures ShortName(elem)[FirstDot(elem)] == '.'
  {
    hide FirstDot, LastDot;
  }

  /** With no dot among the first eight characters, they are the base and the rest is read as an extension. */
  lemma LateDotName(elem: seq<char>)
    requires FirstDot(elem) >= 8
    ensures Name83(elem) == Padded(elem[..8], 8) + SeenExtension(Blanks(3), elem[8..])
  {
    hide SeenExtension, FirstDot;
    LookupWrites(elem, 0, 0, Blanks(NAME_LENGTH), 8);
    assert elem[0..8] == elem[..8];
    var base := Overlay(Blanks(NAME_LENGTH), 0, elem[..8]);
    LookupExtension(elem, 8, base);
    OverlayIsPadded(elem[..8], []);
    assert base[..8] == Padded(elem[..8], 8) && base[8..] == Blanks(3);
  }

  /** The extension that SetFileName stores. */
  function StoredExtension(elem: seq<char>): (r: seq<char>)
    ensures |r| == 3
  {
    if LastDot(elem, |elem|) < |elem| then Padded(elem[LastDot(elem, |elem|) + 1..], 3) else Blanks(3)
  }

  /**
   * The names stored and looked up alike: those with no dot but the last among their first eight characters and, if
   * there is no dot at all among these, with the last part of the name left standing when the parts behind the eighth
   * character are written over each other.
   */
  predicate SameForm(elem: seq<char>) {
    if FirstDot(elem) < 8 then LastDot(elem, |elem|) == FirstDot(elem)
    else SeenExtension(Blanks(3), elem[8..]) == StoredExtension(elem)
  }

  lemma LateDotStored(elem: seq<char>)
    requires FirstDot(elem) >= 8
    ensures ShortName(elem) == Padded(elem[..8], 8) + StoredExtension(elem)
  {
    var last := LastDot(elem, |elem|);
    assert last >= 8;
    hide LastDot, FirstDot;
    assert Padded(elem[..last], 8) == Padded(elem[..8], 8);
  }

  /** Which names are found under the name they were stored with. */
  lemma StoredNameIsFoundIff(elem: seq<char>)
    ensures ShortName(elem) == Name83(elem) <==> SameForm(elem)
  {
    hide FirstDot, LastDot, LookupName, SeenExtension, StoredExtension;
    if FirstDot(elem) >= 8 {
      LateDotName(elem);
      LateDotStored(elem);
      assert (Padded(elem[..8], 8) + StoredExtension(elem))[8..] == StoredExtension(elem);
      assert (Padded(elem[..8], 8) + SeenExtension(Blanks(3), elem[8..]))[8..] == SeenExtension(Blanks(3), elem[8..]);
    } else if LastDot(elem, |elem|) == FirstDot(elem) {
      ShortNameIsLookedUp(elem);
    } else {
      var dot := FirstDot(elem);
      DotIsStored(elem);
      hide ShortName;
      LookupNameHasNoDot(elem, 0, 0, Blanks(NAME_LENGTH));
      assert ShortName(elem)[dot] in ShortName(elem);
    }
  }

  lemma OverExtension(tail: seq<char>, ext: seq<char>)
    ensures Overlay(Overlay(Blanks(3), 0, tail), 0, ext) == Padded(ext, 3)
       <==> forall k | |ext| <= k < |tail| && k < 3 :: tail[k] == ' '
  {
    var seen, stored := Overlay(Overlay(Blanks(3), 0, tail), 0, ext), Padded(ext, 3);
    if seen == stored {
      forall k | |ext| <= k < |tail| && k < 3
        ensures tail[k] == ' '
      {
        assert seen[k] == stored[k];
      }
    }
  }

  lemma NoDotSeen(elem: seq<char>)
    requires FirstDot(elem) == |elem| >= 8
    ensures SeenExtension(Blanks(3), elem[8..]) == Overlay(Blanks(3), 0, elem[8..])
  {
    var rest := elem[8..];
    assert FirstDot(rest) == |rest| && rest[..|rest|] == rest;
    hide FirstDot, Overlay;
  }

  lemma OverBlanks(tail: seq<char>)
    ensures Overlay(Blanks(3), 0, tail) == Blanks(3) <==> forall k | 0 <= k < |tail| && k < 3 :: tail[k] == ' '
  {
    OverExtension(tail, []);
    var over := Overlay(Blanks(3), 0, tail);
    assert Overlay(over, 0, []) == over && Padded([], 3) == Blanks(3);
    hide Overlay, Padded, Blanks;
  }

  /** Without a dot: nothing but blanks may follow the eighth character, as far as the eleventh. */
  lemma NoDotIff(elem: seq<char>)
    requires FirstDot(elem) == |elem|
    ensures SameForm(elem) <==> forall i | 8 <= i < 11 && i < |elem| :: elem[i] == ' '
  {
    hide FirstDot, SeenExtension, Overlay;
    assert LastDot(elem, |elem|) == |elem|;
    if |elem| >= 8 {
      NoDotSeen(elem);
      OverBlanks(elem[8..]);
      assert forall i | 8 <= i < |elem| :: elem[i] == elem[8..][i - 8];
    }
  }

  /** With one dot behind 8 to 10 characters, the extension is written over those behind the eighth. */
  lemma OneLateDotSeen(elem: seq<char>, d: nat)
    requires 8 <= d <= 10 && d < |elem| && FirstDot(elem) == d == LastDot(elem, |elem|)
    ensures SeenExtension(Blanks(3), elem[8..]) == Overlay(Overlay(Blanks(3), 0, elem[8..d]), 0, elem[d + 1..])
  {
    var rest, ext := elem[8..], elem[d + 1..];
    assert rest[..d - 8] == elem[8..d] && rest[d - 8 + 1..] == ext && ext[..|ext|] == ext;
    assert FirstDot(rest) == d - 8 by {
      assert rest[d - 8] == '.';
    }
    assert FirstDot(ext) == |ext|;
    hide FirstDot, LastDot, Overlay;
  }

  /** One dot, behind 8 to 10 characters: the extension must be long enough to cover those behind the eighth. */
  lemma OneLateDotIff(elem: seq<char>, d: nat)
    requires 8 <= d <= 10 && d < |elem| && FirstDot(elem) == d == LastDot(elem, |elem|)
    ensures SameForm(elem) <==> forall i | 8 + (|elem| - d - 1) <= i < d :: elem[i] == ' '
  {
    hide Overlay, Padded, FirstDot, LastDot, SeenExtension;
    OneLateDotSeen(elem, d);
    OverExtension(elem[8..d], elem[d + 1..]);
    assert forall i | 8 <= i < d :: elem[i] == elem[8..d][i - 8];
    assert forall k | 0 <= k < d - 8 :: elem[8..d][k] == elem[8 + k];
  }

  /** First dot behind 11 characters or more: the ninth to eleventh must be the extension. */
  lemma DistantDotIff(elem: seq<char>)
    requires 11 <= FirstDot(elem) < |elem|
    ensures SameForm(elem) <==>
              forall i | 8 <= i < 11 :: Upper(elem[i]) == Padded(elem[LastDot(elem, |elem|) + 1..], 3)[i - 8]
  {
    hide FirstDot, LastDot;
    var rest := elem[8..];
    var e := FirstDot(rest);
    assert e >= 3;
    assert LastDot(elem, |elem|) < |elem| by {
      assert elem[FirstDot(elem)] == '.';
    }
    var seen, stored := SeenExtension(Blanks(3), rest), StoredExtension(elem);
    assert forall k | 0 <= k < 3 :: seen[k] == Upper(elem[8 + k]);
    assert forall i | 8 <= i < 11 :: Upper(elem[i]) == seen[i - 8];
  }

  /** n characters in a row from i on, none of which is a dot. */
  predicate RunAt(s: seq<char>, i: nat, n: nat) {
    i + n <= |s| && forall j | i <= j < i + n :: s[j] != '.'
  }

  /** Some part between dots has n characters or more. */
  ghost predicate HasPart(s: seq<char>, n: nat) {
    exists i: nat :: RunAt(s, i, n)
  }

  lemma PartsSplit(s: seq<char>, e: nat, n: nat)
    requires e < |s| && s[e] == '.' && (forall i | 0 <= i < e :: s[i] != '.') && n > 0
    ensures HasPart(s, n) <==> n <= e || HasPart(s[e + 1..], n)
  {
    var tail := s[e + 1..];
    if i: nat :| RunAt(s, i, n) {
      if i <= e {
        assert i + n <= e by {
          assert s[e] == '.';
        }
      } else {
        assert forall j | i - e - 1 <= j < i - e - 1 + n :: tail[j] == s[j + e + 1];
        assert RunAt(tail, i - e - 1, n);
      }
    }
    if n <= e {
      assert RunAt(s, 0, n);
    }
    if i: nat :| RunAt(tail, i, n) {
      assert forall j | i + e + 1 <= j < i + e + 1 + n :: s[j] == tail[j - e - 1];
      assert RunAt(s, i + e + 1, n);
    }
  }

  lemma LonePart(s: seq<char>, n: nat)
    requires forall i | 0 <= i < |s| :: s[i] != '.'
    ensures HasPart(s, n) <==> n <= |s|
  {
    if n <= |s| {
      assert RunAt(s, 0, n);
    }
  }

  /** Behind parts of fewer than three characters, the last part is written over what they left. */
  lemma {:induction false} SeenOverFront(places: seq<char>, front: seq<char>, ext: seq<char>)
    requires |places| == 3 && '.' !in ext && !HasPart(front, 3)
    ensures SeenExtension(places, front + "." + ext) == Overlay(SeenExtension(places, front), 0, ext)
    decreases |front|
  {
    hide HasPart, Overlay;
    var rest, e := front + "." + ext, FirstDot(front);
    var written := Overlay(places, 0, front[..e]);
    assert rest[e] == '.' && forall i | 0 <= i < e :: rest[i] == front[i];
    assert FirstDot(rest) == e && rest[..e] == front[..e];
    if e == |front| {
      LonePart(front, 3);
      assert rest[e + 1..] == ext;
      LastPartSeen(written, ext);
    } else {
      PartsSplit(front, e, 3);
      assert rest[e + 1..] == front[e + 1..] + "." + ext;
      SeenOverFront(written, front[e + 1..], ext);
    }
  }

  lemma LastPartSeen(places: seq<char>, ext: seq<char>)
    requires '.' !in ext
    ensures SeenExtension(places, ext) == Overlay(places, 0, ext)
  {
    assert forall i | 0 <= i < |ext| :: ext[i] in ext;
    assert FirstDot(ext) == |ext|;
    assert ext[..|ext|] == ext;
  }

  /** i is where three characters in a row without a dot first stand. */
  predicate FirstRun(s: seq<char>, i: nat) {
    RunAt(s, i, 3) && forall j: nat | j < i :: !RunAt(s, j, 3)
  }

  lemma RunBehind(s: seq<char>, e: nat, j: nat)
    requires e < |s|
    ensures RunAt(s[e + 1..], j, 3) <==> RunAt(s, e + 1 + j, 3)
  {
    assert forall m | e < m < |s| :: s[m] == s[e + 1..][m - e - 1];
    if RunAt(s[e + 1..], j, 3) {
      assert forall m | e + 1 + j <= m < e + 4 + j :: s[m] == s[e + 1..][m - e - 1];
    }
  }

  lemma FirstRunBehind(s: seq<char>, i: nat, e: nat)
    requires FirstRun(s, i) && e < 3 && e < |s| && s[e] == '.'
    ensures e < i && FirstRun(s[e + 1..], i - e - 1)
  {
    assert e < i;
    var tail := s[e + 1..];
    RunBehind(s, e, i - e - 1);
    forall j: nat | j < i - e - 1
      ensures !RunAt(tail, j, 3)
    {
      RunBehind(s, e, j);
    }
  }

  /** Nothing behind the first part of three characters or more is read. */
  lemma {:induction false} SeenRun(places: seq<char>, rest: seq<char>, i: nat)
    requires |places| == 3 && FirstRun(rest, i)
    ensures SeenExtension(places, rest) == [Upper(rest[i]), Upper(rest[i + 1]), Upper(rest[i + 2])]
    decreases |rest|
  {
    var e := FirstDot(rest);
    if e >= 3 {
      assert RunAt(rest, 0, 3);
    } else {
      FirstRunBehind(rest, i, e);
      SeenRun(Overlay(places, 0, rest[..e]), rest[e + 1..], i - e - 1);
    }
  }

  /** A place is left blank by short parts without blanks exactly if none of them reaches it. */
  lemma {:induction false} BlankLeftIff(places: seq<char>, front: seq<char>, k: nat)
    requires |places| == 3 && k < 3 && ' ' !in front && !HasPart(front, 3)
    ensures SeenExtension(places, front)[k] == ' ' <==> places[k] == ' ' && !HasPart(front, k + 1)
    decreases |front|
  {
    hide FirstDot;
    hide HasPart;
    var e := FirstDot(front);
    var written := Overlay(places, 0, front[..e]);
    assert k < e ==> front[k] in front;
    assert written[k] == ' ' <==> k >= e && places[k] == ' ';
    if e == |front| {
      LonePart(front, 3);
      LonePart(front, k + 1);
    } else {
      PartsSplit(front, e, 3);
      PartsSplit(front, e, k + 1);
      assert forall c | c in front[e + 1..] :: c in front;
      BlankLeftIff(written, front[e + 1..], k);
    }
  }

  /** A name as its first eight characters, what stands in front of its last dot, and its extension. */
  lemma LateDots(elem: seq<char>, last: nat)
    requires 8 <= FirstDot(elem) <= last < |elem| && LastDot(elem, |elem|) == last
    ensures elem[8..] == elem[8..last] + "." + elem[last + 1..] && '.' !in elem[last + 1..]
    ensures StoredExtension(elem) == Padded(elem[last + 1..], 3)
  {
    hide FirstDot, LastDot, Padded;
    assert elem[8..] == elem[8..last] + [elem[last]] + elem[last + 1..];
    assert forall i | last < i < |elem| :: elem[i] != '.';
  }

  /** What the parts between the eighth character and the last dot leave in the extension. */
  function Left(front: seq<char>): (r: seq<char>)
    ensures |r| == 3
  {
    SeenExtension(Blanks(3), front)
  }

  lemma LeftBlankIff(front: seq<char>, k: nat)
    requires k < 3 && ' ' !in front && !HasPart(front, 3)
    ensures Left(front)[k] == ' ' <==> !HasPart(front, k + 1)
  {
    hide HasPart;
    BlankLeftIff(Blanks(3), front, k);
  }

  /**
   * Several dots behind the eighth character, no part in front of the last dot with three characters: the extension
   * must cover what those parts leave in its places.
   */
  lemma SeveralDotsIff(elem: seq<char>, last: nat)
    requires 8 <= FirstDot(elem) <= last < |elem| && LastDot(elem, |elem|) == last && !HasPart(elem[8..last], 3)
    ensures SameForm(elem) <==>
              forall k | |elem| - last - 1 <= k < 3 :: Left(elem[8..last])[k] == ' '
  {
    hide FirstDot, LastDot, HasPart, SeenExtension;
    var front, ext := elem[8..last], elem[last + 1..];
    LateDots(elem, last);
    SeenOverFront(Blanks(3), front, ext);
    var left := Left(front);
    OverPlaces(left, ext);
  }

  lemma OverPlaces(left: seq<char>, ext: seq<char>)
    requires |left| == 3
    ensures Overlay(left, 0, ext) == Padded(ext, 3) <==> forall k | |ext| <= k < 3 :: left[k] == ' '
  {
    var seen, stored := Overlay(left, 0, ext), Padded(ext, 3);
    if seen == stored {
      forall k | |ext| <= k < 3
        ensures left[k] == ' '
      {
        assert seen[k] == stored[k];
      }
    }
  }

  /**
   * In a name without blanks that means: no part between the eighth character and the last dot is longer than the last.
   */
  lemma SeveralDotsWithoutBlanksIff(elem: seq<char>, last: nat)
    requires 8 <= FirstDot(elem) <= last < |elem| && LastDot(elem, |elem|) == last && !HasPart(elem[8..last], 3)
    requires ' ' !in elem
    ensures SameForm(elem) <==> |elem| - last - 1 >= 3 || !HasPart(elem[8..last], |elem| - last)
  {
    hide FirstDot, LastDot, HasPart, Left, SameForm;
    var front, n := elem[8..last], |elem| - last - 1;
    SeveralDotsIff(elem, last);
    assert forall c | c in front :: c in elem;
    var left := Left(front);
    forall k: nat | n <= k < 3
      ensures left[k] == ' ' <==> !HasPart(front, k + 1)
      ensures HasPart(front, k + 1) ==> HasPart(front, n + 1)
    {
      LeftBlankIff(front, k);
      ShorterPart(front, n + 1, k + 1);
    }
    assert |elem| - last == n + 1;
    if n < 3 && HasPart(front, n + 1) {
      assert left[n] != ' ';
    }
  }

  lemma ShorterPart(s: seq<char>, n: nat, m: nat)
    requires n <= m
    ensures HasPart(s, m) ==> HasPart(s, n)
  {
    if i: nat :| RunAt(s, i, m) {
      assert RunAt(s, i, n);
    }
  }

  /** Otherwise the first three characters in a row that are no dots, from the eighth on, must be the extension. */
  lemma LongPartIff(elem: seq<char>, last: nat, i: nat)
    requires 8 <= FirstDot(elem) <= last < |elem| && LastDot(elem, |elem|) == last && FirstRun(elem[8..last], i)
    ensures SameForm(elem) <==>
              Padded(elem[last + 1..], 3) == [Upper(elem[8 + i]), Upper(elem[8 + i + 1]), Upper(elem[8 + i + 2])]
  {
    hide FirstDot, LastDot, SeenExtension, Padded, RunAt;
    LateDots(elem, last);
    RunInFront(elem, last, i);
    SeenRun(Blanks(3), elem[8..], i);
  }

  lemma RunInFront(elem: seq<char>, last: nat, i: nat)
    requires 8 <= last < |elem| && elem[last] == '.' && FirstRun(elem[8..last], i)
    ensures FirstRun(elem[8..], i) && i + 3 <= last - 8
    ensures elem[8..][i] == elem[8 + i] && elem[8..][i + 1] == elem[8 + i + 1] && elem[8..][i + 2] == elem[8 + i + 2]
  {
    var front, rest := elem[8..last], elem[8..];
    assert forall k | 0 <= k < |front| :: rest[k] == front[k];
    assert forall k | i <= k < i + 3 :: rest[k] == front[k];
    forall j: nat | j < i
      ensures !RunAt(rest, j, 3)
    {
      assert !RunAt(front, j, 3);
      assert forall k | j <= k < j + 3 :: rest[k] == front[k];
    }
  }

  /** A name of nine characters is stored short and looked up long. */
  lemma LongNameNotFound()
    ensures ShortName("longfiles") != Name83("longfiles")
  {
    hide FirstDot, LastDot, ShortName, Name83, SameForm;
    var name := "longfiles";
    assert forall i | 0 <= i < |name| :: name[i] != '.';
    StoredNameIsFoundIff(name);
    NoDotIff(name);
    assert name[8] == 's';
  }

  /** A name with two dots is stored with the first of them. */
  lemma TwoDotsNotFound()
    ensures ShortName("a.b.c") != Name83("a.b.c")
  {
    hide FirstDot, LastDot, ShortName, Name83;
    var name := "a.b.c";
    assert name[1] == '.' && name[3] == '.';
    StoredNameIsFoundIff(name);
  }

  /** A name of nine characters is found if its extension covers the ninth. */
  lemma LateDotIsFound()
    ensures ShortName("abcdefghi.tx") == Name83("abcdefghi.tx")
  {
    hide FirstDot, LastDot, ShortName, Name83, SameForm;
    var name := "abcdefghi.tx";
    assert name[9] == '.' && forall i | 0 <= i < |name| && i != 9 :: name[i] != '.';
    StoredNameIsFoundIff(name);
    OneLateDotIff(name, 9);
  }

  // ---------------------------------------------------------------- upper and lower case

  predicate IsLower(c: char) {
    'a' <= c <= 'z'
  }

  /** The same character, or the same letter in the other case. */
  predicate SameButCase(c: char, d: char) {
    || c == d
    || (IsLower(c) && c as int == d as int + 32)
    || (IsLower(d) && d as int == c as int + 32)
  }

  /** Two texts that differ in the case of letters only. */
  predicate AlikeButCase(a: seq<char>, b: seq<char>) {
    |a| == |b| && forall i | 0 <= i < |a| :: SameButCase(a[i], b[i])
  }

  predicate NoLower(name: seq<char>) {
    forall i | 0 <= i < |name| :: !IsLower(name[i])
  }

  lemma {:induction false} LookupHasNoLower(elem: seq<char>, i: nat, i83: nat, name83: seq<char>)
    requires |name83| == NAME_LENGTH && i <= |elem| && NoLower(name83)
    ensures NoLower(LookupName(elem, i, i83, name83))
    decreases |elem| - i
  {
    if i < |elem| && i83 < NAME_LENGTH {
      if elem[i] == '.' {
        LookupHasNoLower(elem, i + 1, 8, name83);
      } else {
        LookupHasNoLower(elem, i + 1, i83 + 1, name83[i83 := Upper(elem[i])]);
      }
    }
  }

  /** Names are stored and looked up without lower-case letters. */
  lemma FormsHaveNoLower(elem: seq<char>)
    ensures NoLower(ShortName(elem)) && NoLower(Name83(elem))
  {
    LookupHasNoLower(elem, 0, 0, Blanks(NAME_LENGTH));
    hide LookupName, LastDot;
  }

  lemma {:induction false} LookupIgnoresCase(a: seq<char>, b: seq<char>, i: nat, i83: nat, name83: seq<char>)
    requires |name83| == NAME_LENGTH && i <= |a| && AlikeButCase(a, b)
    ensures LookupName(a, i, i83, name83) == LookupName(b, i, i83, name83)
    decreases |a| - i
  {
    if i < |a| && i83 < NAME_LENGTH {
      assert SameButCase(a[i], b[i]);
      if a[i] == '.' {
        LookupIgnoresCase(a, b, i + 1, 8, name83);
      } else {
        LookupIgnoresCase(a, b, i + 1, i83 + 1, name83[i83 := Upper(a[i])]);
      }
    }
  }

  /** Two path elements that differ in the case of letters only are looked up alike. */
  lemma ElementsIgnoreCase(a: seq<char>, b: seq<char>)
    requires AlikeButCase(a, b)
    ensures Name83(a) == Name83(b)
  {
    LookupIgnoresCase(a, b, 0, 0, Blanks(NAME_LENGTH));
  }

  /** An upper-case letter for a lower-case one, and any other character as it is. */
  predicate Kept83(c: char, d: char) {
    SameButCase(c, d) && (!IsLower(d) ==> c == d)
  }

  /** The first eight characters of a name are kept as they are but for lower-case letters, which become upper-case. */
  lemma BaseIsKept(elem: seq<char>, i: nat)
    requires i < FirstDot(elem) && i < 8
    ensures Kept83(Name83(elem)[i], elem[i]) && Kept83(ShortName(elem)[i], elem[i])
  {
    hide FirstDot, Name83, ShortName, Kept83;
    LookedUpBase(elem, i);
    StoredBase(elem, i);
  }

  lemma StoredBase(elem: seq<char>, i: nat)
    requires i < FirstDot(elem) && i < 8
    ensures Kept83(ShortName(elem)[i], elem[i])
  {
    hide FirstDot, LastDot;
    assert LastDot(elem, |elem|) >= FirstDot(elem);
    assert Padded(elem, 8)[i] == Upper(elem[i]);
  }

  lemma LookedUpBase(elem: seq<char>, i: nat)
    requires i < FirstDot(elem) && i < 8
    ensures Kept83(Name83(elem)[i], elem[i])
  {
    hide FirstDot, LookupName, Overlay;
    var n := i + 1;
    LookupWrites(elem, 0, 0, Blanks(NAME_LENGTH), n);
    var base := Overlay(Blanks(NAME_LENGTH), 0, elem[0..n]);
    OverlayAt(elem[0..n], i);
    LookupKeepsBase(elem, n, n, base, i);
  }

  lemma OverlayAt(run: seq<char>, i: nat)
    requires i < |run| && i < NAME_LENGTH
    ensures Overlay(Blanks(NAME_LENGTH), 0, run)[i] == Upper(run[i])
  {
  }

  /** What was written stays where it is in front of a later place. */
  lemma {:induction false} LookupKeepsBase(elem: seq<char>, j: nat, i83: nat, name83: seq<char>, i: nat)
    requires |name83| == NAME_LENGTH && j <= |elem| && i < i83 && i < 8
    ensures LookupName(elem, j, i83, name83)[i] == name83[i]
    decreases |elem| - j
  {
    if j < |elem| && i83 < NAME_LENGTH {
      if elem[j] == '.' {
        LookupKeepsBase(elem, j + 1, 8, name83, i);
      } else {
        LookupKeepsBase(elem, j + 1, i83 + 1, name83[i83 := Upper(elem[j])], i);
      }
    }
  }

  /** The stored and looked-up form of a common name, in full. */
  lemma CommonName()
    ensures ShortName("hello.txt") == Name83("hello.txt") == "HELLO   TXT"
  {
    var name := "hello.txt";
    assert name[5] == '.' && forall i | 0 <= i < |name| && i != 5 :: name[i] != '.';
    hide FirstDot, LastDot, LookupName, Name83;
    assert FirstDot(name) == 5 && LastDot(name, |name|) == 5;
    ShortNameIsLookedUp(name);
    assert name[..5] == "hello" && name[6..] == "txt";
    assert Padded("hello", 8) == "HELLO   " && Padded("txt", 3) == "TXT";
    assert "HELLO   " + "TXT" == "HELLO   TXT";
  }

  // ---------------------------------------------------------------- one directory

  /** All names have their 11 characters. */
  ghost predicate Named(listing: seq<DirEntry>) {
    forall i | 0 <= i < |listing| :: |listing[i].name| == NAME_LENGTH
  }

  /** Nothing comes after the first zero name. */
  ghost predicate Shape(listing: seq<DirEntry>) {
    Named(listing) && forall i, j | 0 <= i < j < |listing| && listing[i].Zero() :: listing[j].Zero()
  }

  /** The first entry with that name in front of the first zero name, or the length of the listing. */
  function Scan(listing: seq<DirEntry>, name83: seq<char>, i: nat): (r: nat)
    requires i <= |listing|
    ensures i <= r <= |listing|
    decreases |listing| - i
  {
    if i == |listing| || listing[i].Zero() then |listing|
    else if listing[i].name == name83 then i
    else Scan(listing, name83, i + 1)
  }

  /** What Scan finds: the first entry with the name, and no zero name in front of it. */
  lemma {:induction false} ScanFinds(listing: seq<DirEntry>, name83: seq<char>, i: nat)
    requires i <= |listing| && Scan(listing, name83, i) < |listing|
    ensures var r := Scan(listing, name83, i);
            && listing[r].name == name83 && !listing[r].Zero()
            && forall j | i <= j < r :: !listing[j].Zero() && listing[j].name != name83
    decreases |listing| - i
  {
    if listing[i].name != name83 {
      ScanFinds(listing, name83, i + 1);
    }
  }

  /** In a well-shaped directory Scan finds nothing exactly if no entry that is in use has the name. */
  lemma {:induction false} ScanMissesIff(listing: seq<DirEntry>, name83: seq<char>, i: nat)
    requires i <= |listing| && Shape(listing)
    ensures Scan(listing, name83, i) == |listing|
       <==> forall j | i <= j < |listing| :: listing[j].Zero() || listing[j].name != name83
    decreases |listing| - i
  {
    if i < |listing| && !listing[i].Zero() {
      ScanMissesIff(listing, name83, i + 1);
    }
  }

  lemma {:induction false} ScanIs(listing: seq<DirEntry>, name83: seq<char>, i: nat, r: nat)
    requires i <= r < |listing|
    requires listing[r].name == name83 && !listing[r].Zero()
    requires forall j | i <= j < r :: !listing[j].Zero() && listing[j].name != name83
    ensures Scan(listing, name83, i) == r
    decreases r - i
  {
    if i < r {
      ScanIs(listing, name83, i + 1, r);
    }
  }

  /** The slot AllocateEntry takes: the first one that is unused or deleted, or the length of the listing. */
  function FreeSlot(listing: seq<DirEntry>, i: nat): (r: nat)
    requires i <= |listing|
    ensures i <= r <= |listing|
    ensures r < |listing| ==> listing[r].Free()
    ensures forall j | i <= j < r :: !listing[j].Free()
    decreases |listing| - i
  {
    if i == |listing| || listing[i].Free() then i else FreeSlot(listing, i + 1)
  }

  const UNUSED := DirEntry(['\0', '\0', '\0', '\0', '\0', '\0', '\0', '\0', '\0', '\0', '\0'], 0, 0, 0)

  /** A listing that grew by one cleared cluster if it has no free slot. */
  function WithFreeSlot(listing: seq<DirEntry>, perCluster: nat): seq<DirEntry> {
    if FreeSlot(listing, 0) < |listing| then listing else listing + seq(perCluster, _ => UNUSED)
  }

  /** The listing after CreateFile named a slot: attribute and first cluster stay what they were. */
  function WithFile(listing: seq<DirEntry>, perCluster: nat, name: seq<char>): seq<DirEntry>
    requires perCluster > 0
  {
    var grown, i := WithFreeSlot(listing, perCluster), FreeSlot(listing, 0);
    grown[i := grown[i].(name := ShortName(name), size := 0)]
  }

  /** The shape of a directory is kept, whether a slot was reused or the directory had to grow. */
  lemma WithFileKeepsShape(listing: seq<DirEntry>, perCluster: nat, name: seq<char>)
    requires Shape(listing) && perCluster > 0 && ShortName(name)[0] != '\0'
    ensures Shape(WithFile(listing, perCluster, name))
  {
    var i, r := FreeSlot(listing, 0), WithFile(listing, perCluster, name);
    forall j, k | 0 <= j < k < |r| && r[j].Zero()
      ensures r[k].Zero()
    {
      assert k == i ==> !listing[j].Free();
    }
  }

  /** An entry with this name is found behind the slot that a new file gets. */
  predicate Shadowed(listing: seq<DirEntry>, name83: seq<char>) {
    FreeSlot(listing, 0) < Scan(listing, name83, 0) < |listing|
  }

  /** In a directory that had to grow, the new file is empty, and nothing but unused entries follows it. */
  lemma GrownEntryIsEmpty(listing: seq<DirEntry>, perCluster: nat, name: seq<char>)
    requires perCluster > 0 && FreeSlot(listing, 0) == |listing|
    ensures var r, n := WithFile(listing, perCluster, name), |listing|;
            && |r| == n + perCluster && r[..n] == listing
            && r[n] == DirEntry(ShortName(name), 0, 0, 0)
            && forall i | n < i < |r| :: r[i].name != [] && r[i].name[0] as int == 0
  {
    hide ShortName;
    assert WithFile(listing, perCluster, name)[..|listing|] == listing;
  }

  /** Lookups in the directory before and after: only the new name is found elsewhere, if it was not found in front. */
  lemma ScanWithFile(listing: seq<DirEntry>, perCluster: nat, name: seq<char>, name83: seq<char>)
    requires Shape(listing) && perCluster > 0 && ShortName(name)[0] != '\0'
    requires |name83| == NAME_LENGTH && name83[0] != '\0' && name83[0] != DELETED
    ensures var r, before := Scan(WithFile(listing, perCluster, name), name83, 0), Scan(listing, name83, 0);
            if name83 == ShortName(name) && (before == |listing| || Shadowed(listing, name83))
                then r == FreeSlot(listing, 0)
            else if before < |listing| then r == before
            else r == |WithFile(listing, perCluster, name)|
  {
    hide Scan, ShortName;
    var i, listing', before := FreeSlot(listing, 0), WithFile(listing, perCluster, name), Scan(listing, name83, 0);
    WithFileKeepsShape(listing, perCluster, name);
    ScanMissesIff(listing, name83, 0);
    ScanMissesIff(listing', name83, 0);
    if before < |listing| {
      ScanFinds(listing, name83, 0);
    }
    if name83 == ShortName(name) && i <= before {
      ScanIs(listing', name83, 0, i);
    } else if before < |listing| {
      ScanIs(listing', name83, 0, before);
    }
  }

  // ---------------------------------------------------------------- paths

  predicate IsAscii(c: char) {
    '\0' < c < 128 as char
  }

  predicate Ascii(path: seq<char>) {
    forall i | 0 <= i < |path| :: IsAscii(path[i])
  }

  lemma {:induction false} LookupNameIsAscii(elem: seq<char>, i: nat, i83: nat, name83: seq<char>)
    requires |name83| == NAME_LENGTH && i <= |elem| && Ascii(elem) && Ascii(name83)
    ensures Ascii(LookupName(elem, i, i83, name83))
    decreases |elem| - i
  {
    if i < |elem| && i83 < NAME_LENGTH {
      if elem[i] == '.' {
        LookupNameIsAscii(elem, i + 1, 8, name83);
      } else {
        LookupNameIsAscii(elem, i + 1, i83 + 1, name83[i83 := Upper(elem[i])]);
      }
    }
  }

  /** The name of a path element looks like neither an unused nor a deleted entry. */
  lemma ElementName(elem: seq<char>)
    requires Ascii(elem)
    ensures Name83(elem)[0] != '\0' && Name83(elem)[0] != DELETED
  {
    LookupNameIsAscii(elem, 0, 0, Blanks(NAME_LENGTH));
    assert IsAscii(Name83(elem)[0]);
  }

  /** Position of the first slash, or the length. */
  function FirstSlash(path: seq<char>): (r: nat)
    ensures r <= |path|
    ensures forall i | 0 <= i < r :: path[i] != '/'
    ensures r < |path| ==> path[r] == '/'
  {
    if path == [] || path[0] == '/' then 0 else 1 + FirstSlash(path[1..])
  }

  lemma FirstSlashIs(path: seq<char>, k: nat)
    requires k <= |path| && (forall i | 0 <= i < k :: path[i] != '/') && (k < |path| ==> path[k] == '/')
    ensures FirstSlash(path) == k
  {
  }

  /** Position of the last slash, or the length. */
  function LastSlash(path: seq<char>, n: nat): (r: nat)
    requires n <= |path|
    ensures r < n || r == |path|
    ensures r < |path| ==> path[r] == '/' && forall i | r < i < n :: path[i] != '/'
    ensures r == |path| ==> forall i | 0 <= i < n :: path[i] != '/'
  {
    if n == 0 then |path|
    else if path[n - 1] == '/' then n - 1
    else LastSlash(path, n - 1)
  }

  /** All directories by their first cluster, with the entries of their clusters one behind the other. */
  datatype Tree = Tree(root: nat, dirs: map<nat, seq<DirEntry>>)

  /** Stray: an entry leads to clusters that are no directory of the tree. */
  datatype Lookup = Found(dir: nat, index: nat, postSlash: bool) | NotFound(postSlash: bool) | Stray

  /** The search for the elements of a path that has no leading slash, from a directory on. */
  function Walk(t: Tree, path: seq<char>, dir: nat): (r: Lookup)
    ensures r.Found? ==> r.dir in t.dirs && r.index < |t.dirs[r.dir]|
    decreases |path|, 0
  {
    var k := FirstSlash(path);
    var next := if k < |path| then path[k + 1..] else [];
    if dir !in t.dirs then Stray
    else
      var listing := t.dirs[dir];
      var i := Scan(listing, Name83(path[..k]), 0);
      if i == |listing| then NotFound(k < |path|)
      else if listing[i].attr == DIRECTORY && next != [] then FindFile(t, next, listing[i].first)
      else Found(dir, i, k < |path|)
  }

  /** FindFile: a leading slash, or no directory, means the root directory. */
  function FindFile(t: Tree, path: seq<char>, dir: nat): (r: Lookup)
    ensures r.Found? ==> r.dir in t.dirs && r.index < |t.dirs[r.dir]|
    decreases |path|, 1
  {
    if path != [] && path[0] == '/' then Walk(t, path[1..], t.root)
    else Walk(t, path, Resolved(t, dir))
  }

  function Resolved(t: Tree, dir: nat): nat {
    if dir == 0 then t.root else dir
  }

  function EntryAt(t: Tree, r: Lookup): DirEntry
    requires r.Found? && r.dir in t.dirs && r.index < |t.dirs[r.dir]|
  {
    t.dirs[r.dir][r.index]
  }

  /** Where a search starts: at the root behind a leading slash and for no directory, else at the directory. */
  lemma SearchStarts(t: Tree, path: seq<char>, dir: nat)
    ensures FindFile(t, "/" + path, dir) == Walk(t, path, t.root)
    ensures path == [] || path[0] != '/' ==> FindFile(t, path, dir) == Walk(t, path, if dir == 0 then t.root else dir)
  {
    assert ("/" + path)[1..] == path;
  }

  /**
   * An element with more behind it: not found, or a directory in which the search goes on, or a file at which it ends
   * although the path does not. A slash at the very end changes only what is reported about it.
   */
  lemma SearchStep(t: Tree, elem: seq<char>, rest: seq<char>, dir: nat)
    requires '/' !in elem && dir in t.dirs
    ensures var i := Scan(t.dirs[dir], Name83(elem), 0);
            Walk(t, elem + "/" + rest, dir) ==
              if i == |t.dirs[dir]| then NotFound(true)
              else if t.dirs[dir][i].attr == 16 && rest != [] then FindFile(t, rest, t.dirs[dir][i].first)
              else Found(dir, i, true)
  {
    var path := elem + "/" + rest;
    FirstSlashIs(path, |elem|);
    assert path[..|elem|] == elem && path[|elem| + 1..] == rest;
    hide Scan, Name83;
  }

  lemma SlashesAlike(a: seq<char>, b: seq<char>)
    requires AlikeButCase(a, b)
    ensures FirstSlash(a) == FirstSlash(b)
  {
    var k := FirstSlash(a);
    assert forall i | 0 <= i < k :: SameButCase(a[i], b[i]) && b[i] != '/';
    assert k < |a| ==> SameButCase(a[k], b[k]);
    hide FirstSlash;
    FirstSlashIs(b, k);
  }

  lemma {:induction false} WalkIgnoresCase(t: Tree, a: seq<char>, b: seq<char>, dir: nat)
    requires AlikeButCase(a, b)
    ensures Walk(t, a, dir) == Walk(t, b, dir)
    decreases |a|, 0
  {
    hide Scan, Name83, FirstSlash;
    SlashesAlike(a, b);
    var k := FirstSlash(a);
    assert AlikeButCase(a[..k], b[..k]);
    ElementsIgnoreCase(a[..k], b[..k]);
    if dir in t.dirs && k < |a| {
      var a', b' := a[k + 1..], b[k + 1..];
      assert forall i | 0 <= i < |a'| :: a'[i] == a[i + k + 1] && b'[i] == b[i + k + 1];
      assert AlikeButCase(a', b');
      var i := Scan(t.dirs[dir], Name83(a[..k]), 0);
      if i < |t.dirs[dir]| {
        SearchIgnoresCase(t, a[k + 1..], b[k + 1..], t.dirs[dir][i].first);
      }
    }
  }

  /** Two paths that differ in the case of letters only lead to the same result. */
  lemma {:induction false} SearchIgnoresCase(t: Tree, a: seq<char>, b: seq<char>, dir: nat)
    requires AlikeButCase(a, b)
    ensures FindFile(t, a, dir) == FindFile(t, b, dir)
    decreases |a|, 1
  {
    assert a != [] ==> SameButCase(a[0], b[0]);
    if a != [] && a[0] == '/' {
      assert AlikeButCase(a[1..], b[1..]);
      WalkIgnoresCase(t, a[1..], b[1..], t.root);
    } else {
      WalkIgnoresCase(t, a, b, Resolved(t, dir));
    }
  }

  /** Two slashes in a row: the search starts again at the root. */
  lemma DoubleSlashResets(t: Tree, a: seq<char>, b: seq<char>, dir: nat)
    requires '/' !in a && dir in t.dirs
    requires var i := Scan(t.dirs[dir], Name83(a), 0);
             i < |t.dirs[dir]| && t.dirs[dir][i].attr == DIRECTORY
    ensures Walk(t, a + "//" + b, dir) == Walk(t, b, t.root)
  {
    var path := a + "//" + b;
    FirstSlashIs(path, |a|);
    assert path[..|a|] == a;
    var next := path[|a| + 1..];
    assert next == ['/'] + b;
    assert next[1..] == b;
  }

  /** A path of elements none of which is empty, without a leading slash. */
  predicate NoEmptyElement(path: seq<char>) {
    && path != [] && path[0] != '/' && path[|path| - 1] != '/'
    && forall i | 0 < i < |path| :: path[i - 1] != '/' || path[i] != '/'
  }

  /** The element behind a directory's path is looked up in that directory. */
  lemma {:induction false} WalkOn(t: Tree, parent: seq<char>, name: seq<char>, dir: nat)
    requires NoEmptyElement(parent) && name != [] && name[0] != '/'
    requires var r := Walk(t, parent, dir);
             r.Found? && EntryAt(t, r).attr == DIRECTORY
    ensures Walk(t, parent + "/" + name, dir) == Walk(t, name, Resolved(t, EntryAt(t, Walk(t, parent, dir)).first))
    decreases |parent|
  {
    hide FirstSlash;
    var path, k := parent + "/" + name, FirstSlash(parent);
    FirstSlashIs(path, k);
    assert path[..k] == parent[..k];
    if k == |parent| {
      assert path[k + 1..] == name;
    } else {
      var rest := parent[k + 1..];
      assert path[k + 1..] == rest + "/" + name;
      assert rest[0] != '/';
      var e := t.dirs[dir][Scan(t.dirs[dir], Name83(parent[..k]), 0)];
      WalkOn(t, rest, name, Resolved(t, e.first));
    }
  }

  // ---------------------------------------------------------------- creating a file

  ghost predicate Valid(t: Tree) {
    && t.root in t.dirs
    && 0 !in t.dirs
    && forall d | d in t.dirs :: Shape(t.dirs[d])
  }

  /** NoCluster: the directory is full and no cluster is free. Elsewhere: the parent is no directory of the tree. */
  datatype Creation =
    | Created(tree: Tree, dir: nat, index: nat)
    | IsDirectory
    | NoSuchDirectory
    | NoCluster
    | Elsewhere

  function CreateIn(t: Tree, perCluster: nat, dir: nat, name: seq<char>, canGrow: bool): Creation
    requires perCluster > 0
  {
    if dir !in t.dirs then Elsewhere
    else
      var i := FreeSlot(t.dirs[dir], 0);
      if i == |t.dirs[dir]| && !canGrow then NoCluster
      else Created(t.(dirs := t.dirs[dir := WithFile(t.dirs[dir], perCluster, name)]), dir, i)
  }

  function CreateFile(t: Tree, perCluster: nat, path: seq<char>, canGrow: bool): Creation
    requires perCluster > 0
  {
    var slash := LastSlash(path, |path|);
    if slash == |path| then CreateIn(t, perCluster, t.root, path, canGrow)
    else
      var name, parent := path[slash + 1..], path[..slash];
      if name == [] then IsDirectory
      else if parent == [] then CreateIn(t, perCluster, t.root, name, canGrow)
      else
        var r := FindFile(t, parent, 0);
        if r.Found? then CreateIn(t, perCluster, EntryAt(t, r).first, name, canGrow)
        else if r.Stray? then Elsewhere
        else NoSuchDirectory
  }

  lemma {:induction false} LastSlashIs(path: seq<char>, n: nat, k: nat)
    requires k < n <= |path| && path[k] == '/' && forall i | k < i < n :: path[i] != '/'
    ensures LastSlash(path, n) == k
    decreases n
  {
    if k < n - 1 {
      LastSlashIs(path, n - 1, k);
    }
  }

  /**
   * What becomes of a path with a slash in front of its last element. Nothing is created behind a slash that ends the
   * path, nor below a parent that is not found; anything else goes to the root or to the directory the parent leads to.
   */
  lemma CreateBelow(t: Tree, perCluster: nat, parent: seq<char>, name: seq<char>, canGrow: bool)
    requires perCluster > 0 && '/' !in name
    ensures var r, p := CreateFile(t, perCluster, parent + "/" + name, canGrow), FindFile(t, parent, 0);
            && (r.IsDirectory? <==> name == [])
            && (r.NoSuchDirectory? <==> name != [] && parent != [] && p.NotFound?)
            && (r.Elsewhere? <==>
                  && name != []
                  && if parent == [] then t.root !in t.dirs
                     else p.Stray? || (p.Found? && EntryAt(t, p).first !in t.dirs))
            && (r.Created? || r.NoCluster? ==> name != [] && (parent == [] || p.Found?))
            && (r.Created? ==> r.dir == if parent == [] then t.root else EntryAt(t, p).first)
  {
    var path, k := parent + "/" + name, |parent|;
    assert path[k] == '/' && forall i | k < i < |path| :: path[i] in name;
    LastSlashIs(path, |path|, k);
    assert path[..k] == parent && path[k + 1..] == name;
    hide LastSlash, FindFile;
  }

  /** A path without a slash is created in the root. */
  lemma CreateInRoot(t: Tree, perCluster: nat, name: seq<char>, canGrow: bool)
    requires perCluster > 0 && '/' !in name
    ensures var r := CreateFile(t, perCluster, name, canGrow);
            && !r.IsDirectory? && !r.NoSuchDirectory?
            && (r.Elsewhere? <==> t.root !in t.dirs)
            && (r.Created? ==> r.dir == t.root)
  {
    assert forall i | 0 <= i < |name| :: name[i] in name;
    assert LastSlash(name, |name|) == |name|;
    hide LastSlash;
  }

  /** In a directory of the tree, creation fails exactly if the directory is full and no cluster is free. */
  lemma CreationSucceedsIff(t: Tree, perCluster: nat, dir: nat, name: seq<char>, canGrow: bool)
    requires perCluster > 0 && dir in t.dirs
    ensures CreateIn(t, perCluster, dir, name, canGrow).Created?
       <==> canGrow || exists e :: e in t.dirs[dir] && (e.name != [] && (e.name[0] == '\0' || e.name[0] as int == 0xe5))
    ensures !CreateIn(t, perCluster, dir, name, canGrow).Created? ==>
              CreateIn(t, perCluster, dir, name, canGrow).NoCluster?
  {
    var listing := t.dirs[dir];
    var i := FreeSlot(listing, 0);
    if i < |listing| {
      assert listing[i] in listing;
    } else {
      assert forall j | 0 <= j < |listing| :: !listing[j].Free();
    }
  }

  /** The tree differs by one new file. */
  ghost predicate Put(t: Tree, t': Tree, perCluster: nat, dir: nat, name: seq<char>) {
    && Valid(t)
    && perCluster > 0
    && dir in t.dirs
    && ShortName(name)[0] != '\0'
    && t' == t.(dirs := t.dirs[dir := WithFile(t.dirs[dir], perCluster, name)])
  }

  /** And it hides no file that was there. */
  ghost predicate Added(t: Tree, t': Tree, perCluster: nat, dir: nat, name: seq<char>) {
    Put(t, t', perCluster, dir, name) && !Shadowed(t.dirs[dir], ShortName(name))
  }

  /** Entries that a lookup can find are not touched. */
  lemma AddedKeepsEntry(t: Tree, t': Tree, perCluster: nat, dir: nat, name: seq<char>, d: nat, name83: seq<char>)
    requires Added(t, t', perCluster, dir, name) && d in t.dirs
    requires |name83| == NAME_LENGTH && name83[0] != '\0' && name83[0] != DELETED
    ensures d in t'.dirs
    ensures var j, j' := Scan(t.dirs[d], name83, 0), Scan(t'.dirs[d], name83, 0);
            if j < |t.dirs[d]| then j' == j && j < |t'.dirs[d]| && t'.dirs[d][j] == t.dirs[d][j]
            else if d == dir && name83 == ShortName(name) then j' == FreeSlot(t.dirs[dir], 0) < |t'.dirs[d]|
            else j' == |t'.dirs[d]|
  {
    if d == dir {
      ScanWithFile(t.dirs[d], perCluster, name, name83);
      if Scan(t.dirs[d], name83, 0) < |t.dirs[d]| {
        ScanFinds(t.dirs[d], name83, 0);
      }
    }
  }

  /** The search passes through the new file, which took over a slot with the directory attribute, at element i to j. */
  ghost predicate Through(t': Tree, dir: nat, index: nat, name: seq<char>, path: seq<char>, r': Lookup, i: nat,
                          j: nat) {
    && dir in t'.dirs && index < |t'.dirs[dir]| && t'.dirs[dir][index].attr == DIRECTORY
    && i <= j < |path| && path[j] == '/' && '/' !in path[i..j] && Name83(path[i..j]) == ShortName(name)
    && r' == FindFile(t', path[j + 1..], t'.dirs[dir][index].first)
  }

  /** What a lookup may give after a file was added, compared with before. */
  ghost predicate Kept(t: Tree, t': Tree, dir: nat, index: nat, name: seq<char>, path: seq<char>, r: Lookup,
                       r': Lookup) {
    && dir in t'.dirs
    && index < |t'.dirs[dir]|
    && match r
       case Found(_, _, _) =>
         && r.dir in t.dirs && r.index < |t.dirs[r.dir]|
         && r.dir in t'.dirs && r.index < |t'.dirs[r.dir]|
         && r' == r && EntryAt(t', r) == EntryAt(t, r)
       case NotFound(_) =>
         || r' == r
         || (r'.Found? && r'.dir == dir && r'.index == index)
         || exists i, j :: Through(t', dir, index, name, path, r', i, j)
       case Stray => r' == r
  }

  lemma ThroughBehind(t': Tree, dir: nat, index: nat, name: seq<char>, path: seq<char>, r': Lookup, i: nat, j: nat,
                      m: nat)
    requires m <= |path| && Through(t', dir, index, name, path[m..], r', i, j)
    ensures Through(t', dir, index, name, path, r', m + i, m + j)
  {
    assert path[m + i..m + j] == path[m..][i..j];
    assert path[m + j + 1..] == path[m..][j + 1..];
  }

  /** What holds behind the first m characters of a path holds for the path. */
  lemma KeptBehind(t: Tree, t': Tree, dir: nat, index: nat, name: seq<char>, path: seq<char>, m: nat, r: Lookup,
                   r': Lookup)
    requires m <= |path| && Kept(t, t', dir, index, name, path[m..], r, r')
    ensures Kept(t, t', dir, index, name, path, r, r')
  {
    hide Through;
    if i, j :| Through(t', dir, index, name, path[m..], r', i, j) {
      ThroughBehind(t', dir, index, name, path, r', i, j, m);
    }
  }

  lemma {:induction false} WalkKept(t: Tree, t': Tree, perCluster: nat, dir: nat, name: seq<char>, path: seq<char>,
                                    d: nat)
    requires Added(t, t', perCluster, dir, name) && Ascii(path)
    ensures Kept(t, t', dir, FreeSlot(t.dirs[dir], 0), name, path, Walk(t, path, d), Walk(t', path, d))
    decreases |path|, 0
  {
    hide Blanks;
    hide ShortName, LookupName;
    hide IsAscii, Scan, Shape;
    var k, index := FirstSlash(path), FreeSlot(t.dirs[dir], 0);
    var next := if k < |path| then path[k + 1..] else [];
    if d in t.dirs {
      ElementName(path[..k]);
      AddedKeepsEntry(t, t', perCluster, dir, name, d, Name83(path[..k]));
      var i := Scan(t.dirs[d], Name83(path[..k]), 0);
      if i < |t.dirs[d]| {
        if next != [] && t.dirs[d][i].attr == DIRECTORY {
          LookupsKept(t, t', perCluster, dir, name, next, t.dirs[d][i].first);
          hide Kept;
          KeptBehind(t, t', dir, index, name, path, k + 1, Walk(t, path, d), Walk(t', path, d));
        }
      } else if d == dir && Name83(path[..k]) == ShortName(name) && next != [] && t'.dirs[d][index].attr == DIRECTORY {
        assert path[0..k] == path[..k];
        assert Through(t', dir, index, name, path, Walk(t', path, d), 0, k);
      }
    }
  }

  /**
   * Every earlier lookup finds the same entry with the same fields; one that found nothing finds nothing or the new
   * file, or passes through it, if it took over a slot with the directory attribute.
   */
  lemma {:induction false} LookupsKept(t: Tree, t': Tree, perCluster: nat, dir: nat, name: seq<char>, path: seq<char>,
                                       d: nat)
    requires Added(t, t', perCluster, dir, name) && Ascii(path)
    ensures Kept(t, t', dir, FreeSlot(t.dirs[dir], 0), name, path, FindFile(t, path, d), FindFile(t', path, d))
    decreases |path|, 1
  {
    if path != [] && path[0] == '/' {
      WalkKept(t, t', perCluster, dir, name, path[1..], t.root);
      hide Kept;
      KeptBehind(t, t', dir, FreeSlot(t.dirs[dir], 0), name, path, 1, FindFile(t, path, d), FindFile(t', path, d));
    } else {
      WalkKept(t, t', perCluster, dir, name, path, Resolved(t, d));
    }
  }

  /**
   * A file of the directory with the name that the new one is stored with is found as before exactly if it is not
   * hidden.
   */
  lemma FoundAsBeforeIff(t: Tree, t': Tree, perCluster: nat, dir: nat, name: seq<char>, elem: seq<char>)
    requires Put(t, t', perCluster, dir, name) && Ascii(elem) && '/' !in elem
    requires Name83(elem) == ShortName(name) && Walk(t, elem, dir).Found?
    ensures Walk(t', elem, dir) == Walk(t, elem, dir) <==> !Shadowed(t.dirs[dir], ShortName(name))
    ensures Shadowed(t.dirs[dir], ShortName(name)) ==>
              Walk(t', elem, dir) == Found(dir, FreeSlot(t.dirs[dir], 0), false)
  {
    hide Scan, ShortName, Name83;
    ElementName(elem);
    ScanWithFile(t.dirs[dir], perCluster, name, Name83(elem));
    WalkName(t, elem, dir);
    WalkName(t', elem, dir);
    hide Walk;
  }

  // ---------------------------------------------------------------- created files are found

  /** The part of a path behind its last slash, and the part in front of it. */
  function FileName(path: seq<char>): seq<char> {
    var slash := LastSlash(path, |path|);
    if slash == |path| then path else path[slash + 1..]
  }

  function Parent(path: seq<char>): seq<char> {
    path[..if LastSlash(path, |path|) == |path| then 0 else LastSlash(path, |path|)]
  }

  function Relative(path: seq<char>): seq<char> {
    if path != [] && path[0] == '/' then path[1..] else path
  }

  /** A path of characters that have a short form, with no empty element; it may start with a slash. */
  predicate ValidPath(path: seq<char>) {
    && Ascii(path)
    && FileName(path) != []
    && (Parent(path) == [] || NoEmptyElement(Relative(Parent(path))))
  }

  /** The directory that a path's last element belongs to, if its parent part leads to a directory. */
  ghost predicate InDirectory(t: Tree, path: seq<char>, dir: nat) {
    if Parent(path) == [] then dir == t.root
    else
      var r := FindFile(t, Parent(path), 0);
      r.Found? && EntryAt(t, r).attr == DIRECTORY && EntryAt(t, r).first == dir && dir != 0
  }

  lemma NameHasNoSlash(path: seq<char>)
    ensures '/' !in FileName(path)
  {
  }

  lemma CutAt(path: seq<char>, k: nat)
    requires k < |path| && path[k] == '/'
    ensures path == path[..k] + "/" + path[k + 1..]
  {
    assert path[k..] == "/" + path[k + 1..];
  }

  lemma JoinedTail(parent: seq<char>, name: seq<char>)
    requires parent != []
    ensures (parent + "/" + name)[0] == parent[0]
    ensures (parent + "/" + name)[1..] == parent[1..] + "/" + name
  {
    assert (parent + ("/" + name))[1..] == parent[1..] + ("/" + name);
    assert parent + ("/" + name) == parent + "/" + name;
    assert parent[1..] + ("/" + name) == parent[1..] + "/" + name;
  }

  lemma PathIsCut(path: seq<char>)
    requires LastSlash(path, |path|) < |path|
    ensures path == Parent(path) + "/" + FileName(path)
  {
    hide LastSlash;
    CutAt(path, LastSlash(path, |path|));
  }

  /** A path is its parent part, a slash and its name. */
  lemma PathParts(path: seq<char>)
    requires LastSlash(path, |path|) < |path|
    ensures path == Parent(path) + "/" + FileName(path)
    ensures Parent(path) != [] ==> Relative(path) == Relative(Parent(path)) + "/" + FileName(path)
    ensures Parent(path) != [] ==> (path[0] == '/' <==> Parent(path)[0] == '/')
  {
    hide LastSlash, FileName, Parent;
    PathIsCut(path);
    if Parent(path) != [] {
      JoinedTail(Parent(path), FileName(path));
    }
  }

  lemma FindBehindParent(t: Tree, parent: seq<char>, name: seq<char>, path: seq<char>)
    requires parent != [] && NoEmptyElement(Relative(parent)) && name != [] && name[0] != '/'
    requires path != [] && Relative(path) == Relative(parent) + "/" + name && (path[0] == '/' <==> parent[0] == '/')
    requires var r := FindFile(t, parent, 0);
             r.Found? && EntryAt(t, r).attr == DIRECTORY
    ensures FindFile(t, path, 0) == Walk(t, name, Resolved(t, EntryAt(t, FindFile(t, parent, 0)).first))
  {
    hide NoEmptyElement, Walk;
    WalkOn(t, Relative(parent), name, t.root);
  }

  /** The whole path is found where its last element is found in its directory. */
  lemma FindInDirectory(t: Tree, path: seq<char>, dir: nat)
    requires ValidPath(path) && InDirectory(t, path, dir)
    ensures FindFile(t, path, 0) == Walk(t, FileName(path), dir)
  {
    hide LastSlash, Walk, NoEmptyElement, FirstDot, LastDot;
    var name, parent := FileName(path), Parent(path);
    NameHasNoSlash(path);
    assert name[0] in name;
    if LastSlash(path, |path|) < |path| {
      PathParts(path);
      if parent == [] {
        assert path == "/" + name;
      } else {
        FindBehindParent(t, parent, name, path);
      }
    }
  }

  lemma WalkName(t: Tree, name: seq<char>, dir: nat)
    requires '/' !in name && dir in t.dirs
    ensures var i := Scan(t.dirs[dir], Name83(name), 0);
            Walk(t, name, dir) == if i == |t.dirs[dir]| then NotFound(false) else Found(dir, i, false)
  {
    FirstSlashIs(name, |name|);
    assert name[..|name|] == name;
  }

  lemma {:induction false} PartIsAscii(path: seq<char>)
    requires Ascii(path)
    ensures Ascii(FileName(path)) && Ascii(Parent(path))
  {
    var slash := LastSlash(path, |path|);
    if slash < |path| {
      forall i | 0 <= i < |FileName(path)|
        ensures IsAscii(FileName(path)[i])
      {
        assert FileName(path)[i] == path[slash + 1 + i];
      }
    }
  }

  /** CreateFile on a path that is not found names a slot of the directory of the path. */
  lemma CreateNames(t: Tree, perCluster: nat, path: seq<char>, canGrow: bool, dir: nat)
    requires perCluster > 0 && ValidPath(path) && InDirectory(t, path, dir)
    ensures CreateFile(t, perCluster, path, canGrow) == CreateIn(t, perCluster, dir, FileName(path), canGrow)
  {
  }

  /** With a name that is stored and looked up alike, that adds a file which was in no way visible before. */
  lemma CreateAdds(t: Tree, perCluster: nat, path: seq<char>, canGrow: bool, dir: nat)
    requires Valid(t) && perCluster > 0 && ValidPath(path) && SameForm(FileName(path)) && InDirectory(t, path, dir)
    requires FindFile(t, path, 0).NotFound?
    ensures dir in t.dirs
    ensures Scan(t.dirs[dir], ShortName(FileName(path)), 0) == |t.dirs[dir]|
    ensures var r, i := CreateFile(t, perCluster, path, canGrow), FreeSlot(t.dirs[dir], 0);
            if i == |t.dirs[dir]| && !canGrow then r == NoCluster
            else r.Created? && r.dir == dir && r.index == i && Added(t, r.tree, perCluster, dir, FileName(path))
  {
    var name := FileName(path);
    FindInDirectory(t, path, dir);
    NameHasNoSlash(path);
    StoredNameIsFoundIff(name);
    PartIsAscii(path);
    ElementName(name);
    WalkName(t, name, dir);
    CreateNames(t, perCluster, path, canGrow, dir);
    hide CreateFile, FileName, SameForm;
  }

  /**
   * A file that was created is found: under its path, in the slot that CreateFile returned, with its
   * 8.3 name and size 0 but with the attribute and first cluster the slot had before. The directories
   * keep their shape.
   */
  lemma CreatedIsFound(t: Tree, perCluster: nat, path: seq<char>, canGrow: bool, dir: nat)
    requires Valid(t) && perCluster > 0 && ValidPath(path) && SameForm(FileName(path)) && InDirectory(t, path, dir)
    requires FindFile(t, path, 0).NotFound? && CreateFile(t, perCluster, path, canGrow).Created?
    ensures dir in t.dirs
    ensures var r, before := CreateFile(t, perCluster, path, canGrow), WithFreeSlot(t.dirs[dir], perCluster);
            && Valid(r.tree)
            && FindFile(r.tree, path, 0) == Found(r.dir, r.index, false)
            && r.index < |before|
            && EntryAt(r.tree, FindFile(r.tree, path, 0))
                 == before[r.index].(name := ShortName(FileName(path)), size := 0)
  {
    CreateAdds(t, perCluster, path, canGrow, dir);
    var name, t' := FileName(path), CreateFile(t, perCluster, path, canGrow).tree;
    WithFileKeepsShape(t.dirs[dir], perCluster, name);
    PartIsAscii(path);
    if Parent(path) != [] {
      LookupsKept(t, t', perCluster, dir, name, Parent(path), 0);
    }
    FindInDirectory(t', path, dir);
    NameHasNoSlash(path);
    StoredNameIsFoundIff(name);
    ElementName(name);
    AddedKeepsEntry(t, t', perCluster, dir, name, dir, Name83(name));
    WalkName(t', name, dir);
  }

  /** The name of a path is the name of what follows its first slash. */
  lemma NameBehindSlash(path: seq<char>, k: nat)
    requires k < |path| && path[k] == '/'
    ensures FileName(path) == FileName(path[k + 1..])
  {
    hide LastSlash;
    var rest := path[k + 1..];
    var slash := LastSlash(rest, |rest|);
    assert forall i | k < i < |path| :: path[i] == rest[i - k - 1];
    if slash == |rest| {
      LastSlashIs(path, |path|, k);
    } else {
      LastSlashIs(path, |path|, k + 1 + slash);
    }
  }

  /** What a search finds for the last element of a path has the name of that element. */
  lemma {:induction false} WalkFindsName(t: Tree, path: seq<char>, d: nat)
    requires NoEmptyElement(path) && Walk(t, path, d).Found? && !Walk(t, path, d).postSlash
    ensures EntryAt(t, Walk(t, path, d)).name == Name83(FileName(path))
    decreases |path|
  {
    hide Name83, LastSlash;
    var k := FirstSlash(path);
    ScanFinds(t.dirs[d], Name83(path[..k]), 0);
    if k < |path| {
      NameBehindSlash(path, k);
      var rest, e := path[k + 1..], t.dirs[d][Scan(t.dirs[d], Name83(path[..k]), 0)];
      assert rest != [] && rest[0] != '/';
      RestHasNoEmptyElement(path, k);
      WalkFindsName(t, rest, Resolved(t, e.first));
    } else {
      assert path[..k] == path;
      WholeIsName(path);
    }
  }

  lemma RestHasNoEmptyElement(path: seq<char>, k: nat)
    requires NoEmptyElement(path) && k < |path| && path[k] == '/'
    ensures NoEmptyElement(path[k + 1..])
  {
    var rest := path[k + 1..];
    assert rest != [] && rest[|rest| - 1] == path[|path| - 1];
    forall i | 0 < i < |rest|
      ensures rest[i - 1] != '/' || rest[i] != '/'
    {
      assert rest[i - 1] == path[k + i] && rest[i] == path[k + i + 1];
    }
  }

  lemma WholeIsName(path: seq<char>)
    requires forall i | 0 <= i < |path| :: path[i] != '/'
    ensures FileName(path) == path
  {
  }

  lemma JoinedHasNoEmptyElement(parent: seq<char>, name: seq<char>)
    requires NoEmptyElement(parent) && name != [] && '/' !in name
    ensures NoEmptyElement(parent + "/" + name)
  {
    var path, n := parent + "/" + name, |parent|;
    assert forall i | n < i < |path| :: path[i] == name[i - n - 1];
    forall i | 0 < i < |path|
      ensures path[i - 1] != '/' || path[i] != '/'
    {
      if i > n {
        assert path[i] in name;
      } else if i < n {
        assert path[i - 1] == parent[i - 1] && path[i] == parent[i];
      } else {
        assert path[i - 1] == parent[n - 1];
      }
    }
  }

  /** The elements of a valid path, and its name, are those of the path without its leading slash. */
  lemma RelativePath(path: seq<char>)
    requires ValidPath(path)
    ensures NoEmptyElement(Relative(path)) && FileName(Relative(path)) == FileName(path)
  {
    hide Parent;
    hide LastSlash, NoEmptyElement;
    NameHasNoSlash(path);
    var name := FileName(path);
    if path[0] == '/' {
      NameBehindSlash(path, 0);
    }
    if LastSlash(path, |path|) < |path| {
      PathParts(path);
      if Parent(path) != [] {
        JoinedHasNoEmptyElement(Relative(Parent(path)), name);
      } else {
        assert path == "/" + name;
        assert Relative(path) == name;
        NameIsElement(name);
      }
    } else {
      NameIsElement(path);
    }
  }

  lemma NameIsElement(name: seq<char>)
    requires name != [] && '/' !in name
    ensures NoEmptyElement(name)
  {
    assert name[0] in name && name[|name| - 1] in name;
    assert forall i | 0 <= i < |name| :: name[i] in name;
  }

  /** A file whose name is not stored and looked up alike is not found in the slot it was created in. */
  lemma OtherFormIsLost(t: Tree, perCluster: nat, path: seq<char>, canGrow: bool, dir: nat)
    requires perCluster > 0 && ValidPath(path) && !SameForm(FileName(path)) && InDirectory(t, path, dir)
    requires CreateFile(t, perCluster, path, canGrow).Created?
    ensures var r := CreateFile(t, perCluster, path, canGrow);
            FindFile(r.tree, path, 0) != Found(r.dir, r.index, false)
  {
    hide SameForm, ShortName, Name83, LastSlash, NoEmptyElement, FirstSlash;
    var name, r := FileName(path), CreateFile(t, perCluster, path, canGrow);
    CreateNames(t, perCluster, path, canGrow, dir);
    StoredNameIsFoundIff(name);
    RelativePath(path);
    hide CreateFile, FileName;
    assert r.tree.dirs[r.dir][r.index].name == ShortName(name);
    if FindFile(r.tree, path, 0) == Found(r.dir, r.index, false) {
      WalkFindsName(r.tree, Relative(path), r.tree.root);
    }
  }

  /**
   * A file that was created under a path that was not found is found there, in its slot, if and only if its name is
   * stored and looked up alike.
   */
  lemma CreatedIsFoundIff(t: Tree, perCluster: nat, path: seq<char>, canGrow: bool, dir: nat)
    requires Valid(t) && perCluster > 0 && ValidPath(path) && InDirectory(t, path, dir)
    requires FindFile(t, path, 0).NotFound? && CreateFile(t, perCluster, path, canGrow).Created?
    ensures var r := CreateFile(t, perCluster, path, canGrow);
            FindFile(r.tree, path, 0) == Found(r.dir, r.index, false) <==> SameForm(FileName(path))
  {
    hide FindFile, CreateFile, InDirectory, SameForm, ValidPath, Valid;
    if SameForm(FileName(path)) {
      CreatedIsFound(t, perCluster, path, canGrow, dir);
    } else {
      OtherFormIsLost(t, perCluster, path, canGrow, dir);
    }
  }

  /** The path "a//b" finds a file b of the root directory, although a is a directory without one. */
  lemma SlashesFindRootFile(t: Tree, a: nat, b: nat, sub: nat)
    requires t.root in t.dirs && sub in t.dirs && t.dirs[sub] == [] && a < |t.dirs[t.root]|
    requires Scan(t.dirs[t.root], Name83("a"), 0) == a && Scan(t.dirs[t.root], Name83("b"), 0) == b < |t.dirs[t.root]|
    requires t.dirs[t.root][a].attr == DIRECTORY && t.dirs[t.root][a].first == sub != 0
    ensures FindFile(t, "a//b", 0) == Found(t.root, b, false) && FindFile(t, "a/b", 0) == NotFound(false)
  {
    hide Scan, Name83;
    assert "a" + "//" + "b" == "a//b";
    DoubleSlashResets(t, "a", "b", t.root);
    WalkName(t, "b", t.root);
    FirstSlashIs("a/b", 1);
    assert "a/b"[..1] == "a" && "a/b"[2..] == "b";
    EmptyScan(Name83("b"));
    WalkName(t, "b", sub);
  }

  lemma EmptyScan(name83: seq<char>)
    ensures Scan([], name83, 0) == 0
  {
  }
}
