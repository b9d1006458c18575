/**
 Member names and link targets of a staged archive: which names are accepted, and why an
 accepted link stays inside the archive root when it is followed component by component.
 */
module MemberPaths {
  import opened Wrappers
  import opened Affixes

  datatype PathError = InvalidText | AbsoluteName | EmptyName | NotNormalized | AbsoluteLink | EscapingLink | PartName

  // ----- components -----

  /** Python's `text.split("/")`. */
  function Split(s: string): (r: seq<string>)
    ensures r != []
  {
    if s == [] then [""]
    else
      var rest := Split(s[1..]);
      if s[0] == '/' then [""] + rest else [[s[0]] + rest[0]] + rest[1..]
  }

  function Join(parts: seq<string>): string
    requires parts != []
  {
    if |parts| == 1 then parts[0] else parts[0] + "/" + Join(parts[1..])
  }

  lemma {:induction false} JoinSplit(s: string)
    ensures Join(Split(s)) == s
  {
    if s != [] {
      JoinSplit(s[1..]);
      var rest := Split(s[1..]);
      var all := Split(s);
      if s[0] == '/' {
        assert all[1..] == rest && Join(all) == "" + "/" + Join(rest);
      } else {
        assert all[1..] == rest[1..];
        if |rest| > 1 {
          assert Join(all) == all[0] + "/" + Join(rest[1..]);
        }
      }
      assert s == [s[0]] + s[1..];
    }
  }

  predicate SlashFree(parts: seq<string>) {
    forall p | p in parts :: '/' !in p
  }

  lemma {:induction false} SplitPlain(p: string)
    requires '/' !in p
    ensures Split(p) == [p]
  {
    if p != [] {
      assert p == [p[0]] + p[1..];
      SplitPlain(p[1..]);
    }
  }

  lemma {:induction false} SplitAt(p: string, rest: string)
    requires '/' !in p
    ensures Split(p + "/" + rest) == [p] + Split(rest)
  {
    var s := p + "/" + rest;
    if p == [] {
      assert s[1..] == rest;
    } else {
      assert s[1..] == p[1..] + "/" + rest && p == [p[0]] + p[1..];
      SplitAt(p[1..], rest);
    }
  }

  lemma {:induction false} SplitJoin(parts: seq<string>)
    requires parts != [] && SlashFree(parts)
    ensures Split(Join(parts)) == parts
  {
    if |parts| == 1 {
      SplitPlain(parts[0]);
    } else {
      SplitJoin(parts[1..]);
      SplitAt(parts[0], Join(parts[1..]));
    }
  }

  predicate BadText(s: string) {
    s == "" || '\\' in s || '\0' in s
  }

  predicate Dotted(part: string) {
    part == "" || part == "." || part == ".."
  }

  predicate Plain(parts: seq<string>) {
    forall p | p in parts :: !Dotted(p)
  }

  // ----- normalisation -----

  /** `posixpath.normpath` on a relative path, one component at a time. */
  function NormStep(done: seq<string>, part: string): seq<string> {
    if part == "" || part == "." then done
    else if part == ".." && done != [] && done[|done| - 1] != ".." then done[..|done| - 1]
    else done + [part]
  }

  function Norm(parts: seq<string>): seq<string> {
    if parts == [] then [] else NormStep(Norm(parts[..|parts| - 1]), parts[|parts| - 1])
  }

  method NormParts(parts: seq<string>) returns (r: seq<string>)
    ensures r == Norm(parts)
  {
    r := [];
    for i := 0 to |parts|
      invariant r == Norm(parts[..i])
    {
      assert parts[..i + 1][..i] == parts[..i];
      if parts[i] == "" || parts[i] == "." {
        continue;
      }
      if parts[i] != ".." || r == [] || r[|r| - 1] == ".." {
        r := r + [parts[i]];
      } else {
        r := r[..|r| - 1];
      }
    }
    assert parts[..|parts|] == parts;
  }

  /** Text for a component list; the empty one is `.`. */
  function TextOf(parts: seq<string>): string {
    if parts == [] then "." else Join(parts)
  }

  lemma {:induction false} NormOfPlain(parts: seq<string>)
    requires Plain(parts)
    ensures Norm(parts) == parts
  {
    if parts != [] {
      NormOfPlain(parts[..|parts| - 1]);
      assert parts == parts[..|parts| - 1] + [parts[|parts| - 1]];
      assert parts[|parts| - 1] in parts;
    }
  }

  // ----- member names -----

  /** The name without its leading `./` markers. */
  function StripDots(name: string): string {
    if StartsWith(name, "./") then StripDots(name[2..]) else name
  }

  function SafeName(name: string): Result<seq<string>, PathError> {
    if BadText(name) then Err(InvalidText)
    else if StartsWith(name, "/") || StartsWith(name, "~") then Err(AbsoluteName)
    else if StripDots(name) == "" then Err(EmptyName)
    else if Plain(Split(StripDots(name))) then Ok(Split(StripDots(name)))
    else Err(NotNormalized)
  }

  /** The check, with the redundant normalisation test the source makes at its end. */
  method SafeMemberName(name: string) returns (r: Result<seq<string>, PathError>)
    ensures r == SafeName(name)
  {
    if name == "" || '\\' in name || '\0' in name {
      return Err(InvalidText);
    }
    if StartsWith(name, "/") || StartsWith(name, "~") {
      return Err(AbsoluteName);
    }
    var text := name;
    while StartsWith(text, "./")
      invariant StripDots(text) == StripDots(name)
      decreases |text|
    {
      text := text[2..];
    }
    if text == "" {
      return Err(EmptyName);
    }
    var parts := Split(text);
    if !Plain(parts) {
      return Err(NotNormalized);
    }
    var normalized := NormParts(parts);
    NormalizedAlready(text);
    if TextOf(normalized) != text || normalized == [] || normalized[0] == ".." {
      return Err(NotNormalized);
    }
    r := Ok(normalized);
  }

  /** The final normalisation test of an otherwise accepted name never fails. */
  lemma NormalizedAlready(text: string)
    requires text != "" && Plain(Split(text))
    ensures
      var n := Norm(Split(text));
      n == Split(text) && TextOf(n) == text && n != [] && n[0] != ".."
  {
    NormOfPlain(Split(text));
    JoinSplit(text);
    assert Split(text)[0] in Split(text);
  }

  lemma {:induction false} SplitIsSlashFree(s: string)
    ensures SlashFree(Split(s))
  {
    if s != [] {
      SplitIsSlashFree(s[1..]);
      var rest := Split(s[1..]);
      assert rest[0] in rest;
    }
  }

  lemma {:induction false} SplitHead(s: string)
    ensures StartsWith(s, "/") ==> Split(s)[0] == "" && |Split(s)| > 1
    ensures s != "" && s[0] != '/' ==> Split(s)[0] != "" && Split(s)[0][0] == s[0]
    ensures StartsWith(s, "./") ==> Split(s)[0] == "."
  {
    if s != [] && s[0] == '.' && |s| > 1 && s[1] == '/' {
      assert s == "." + "/" + s[2..];
      SplitAt(".", s[2..]);
    }
  }

  lemma {:induction false} CharsOfSplit(s: string, c: char)
    requires c != '/'
    ensures c in s <==> exists p | p in Split(s) :: c in p
  {
    if s != [] {
      CharsOfSplit(s[1..], c);
      var rest := Split(s[1..]);
      assert s == [s[0]] + s[1..];
      if s[0] == '/' {
        assert forall p :: p in Split(s) <==> p == "" || p in rest;
      } else {
        assert rest == [rest[0]] + rest[1..];
        var head := [s[0]] + rest[0];
        assert Split(s) == [head] + rest[1..];
        assert c in head <==> c == s[0] || c in rest[0];
      }
    }
  }

  lemma {:induction false} StripKeepsChars(name: string, c: char)
    requires c in StripDots(name)
    ensures c in name
    decreases |name|
  {
    if StartsWith(name, "./") {
      StripKeepsChars(name[2..], c);
    }
  }

  lemma {:induction false} StrippedHasNoDots(name: string)
    ensures !StartsWith(StripDots(name), "./")
    decreases |name|
  {
    if StartsWith(name, "./") {
      StrippedHasNoDots(name[2..]);
    }
  }

  /** `name` is `k` markers `./` and then `text`. */
  predicate Marked(name: string, k: nat, text: string) {
    && 2 * k <= |name| && text == name[2 * k..]
    && (forall i | 0 <= i < k :: name[2 * i] == '.' && name[2 * i + 1] == '/')
  }

  lemma {:induction false} StripIsMarked(name: string) returns (k: nat)
    ensures Marked(name, k, StripDots(name))
    decreases |name|
  {
    k := 0;
    if StartsWith(name, "./") {
      var rest := name[2..];
      var m := StripIsMarked(rest);
      forall i | 0 <= i < m + 1
        ensures name[2 * i] == '.' && name[2 * i + 1] == '/'
      {
        if i > 0 {
          assert rest[2 * (i - 1)] == '.' && rest[2 * (i - 1) + 1] == '/';
        }
      }
      k := m + 1;
    }
  }

  lemma {:induction false} MarkedIsStrip(name: string, k: nat, text: string)
    requires Marked(name, k, text) && !StartsWith(text, "./")
    ensures StripDots(name) == text
  {
    if k > 0 {
      var rest := name[2..];
      assert name[2 * 0] == '.' && name[2 * 0 + 1] == '/';
      forall i | 0 <= i < k - 1
        ensures rest[2 * i] == '.' && rest[2 * i + 1] == '/'
      {
        assert name[2 * (i + 1)] == '.' && name[2 * (i + 1) + 1] == '/';
      }
      MarkedIsStrip(rest, k - 1, text);
    }
  }

  /** The parts of an accepted name, none of them empty, a dot or two dots. */
  predicate CleanParts(parts: seq<string>) {
    parts != [] && forall p | p in parts :: p != "" && p != "." && p != ".." && '/' !in p
  }

  /** Neither a backslash nor NUL, and neither a slash nor a tilde in front. */
  predicate CleanText(name: string) {
    && '\\' !in name && '\0' !in name
    && (name != "" ==> name[0] != '/' && name[0] != '~')
  }

  lemma FrontMatters(name: string)
    ensures SafeName(name).Ok? ==> CleanText(name) && name != ""
    ensures CleanText(name) && name != "" ==> !BadText(name) && !StartsWith(name, "/") && !StartsWith(name, "~")
  {
    hide StripDots, Split, Plain;
  }

  lemma AcceptedShape(name: string)
    requires SafeName(name).Ok?
    ensures
      var parts := SafeName(name).value;
      CleanText(name) && CleanParts(parts) && exists k :: Marked(name, k, Join(parts))
  {
    FrontMatters(name);
    var text := StripDots(name);
    hide StripDots, Split, BadText, StartsWith, Marked, Join;
    var m := StripIsMarked(name);
    JoinSplit(text);
    SplitIsSlashFree(text);
  }

  lemma ShapeIsStripped(name: string, parts: seq<string>, k: nat)
    requires CleanParts(parts) && Marked(name, k, Join(parts))
    ensures name != "" && StripDots(name) == Join(parts) != "" && Split(Join(parts)) == parts && Plain(parts)
  {
    hide Split, Join, StripDots;
    assert parts[0] in parts;
    SplitJoin(parts);
    SplitHead(Join(parts));
    assert Split("") == [""] by {
      SplitPlain("");
    }
    MarkedIsStrip(name, k, Join(parts));
  }

  lemma ShapeIsAccepted(name: string, parts: seq<string>, k: nat)
    requires CleanText(name) && CleanParts(parts) && Marked(name, k, Join(parts))
    ensures SafeName(name) == Ok(parts)
  {
    ShapeIsStripped(name, parts, k);
    FrontMatters(name);
    hide Split, Join, StripDots, Marked, BadText, StartsWith, CleanText, CleanParts, Plain;
  }

  /**
   A name is accepted as `parts` exactly when it is markers `./` and then the parts between
   slashes, none of them empty, a dot or two dots, without a backslash or NUL anywhere and
   without a slash or tilde in front.
   */
  lemma NameAcceptedExactly(name: string, parts: seq<string>)
    ensures SafeName(name) == Ok(parts) <==>
      CleanText(name) && CleanParts(parts) && exists k :: Marked(name, k, Join(parts))
  {
    hide SafeName, CleanText, Marked, Join;
    if SafeName(name) == Ok(parts) {
      AcceptedShape(name);
    }
    if CleanText(name) && CleanParts(parts) {
      if k :| Marked(name, k, Join(parts)) {
        ShapeIsAccepted(name, parts, k);
      }
    }
  }

  /** A name of markers alone, and no other one, is refused as empty. */
  lemma MarkersAreEmpty(name: string)
    ensures SafeName(name) == Err(EmptyName) <==> name != "" && exists k :: Marked(name, k, "")
  {
    var m := StripIsMarked(name);
    if name != "" {
      if k :| Marked(name, k, "") {
        MarkedIsStrip(name, k, "");
        NoOtherMarks(name, k);
        assert name[2 * 0] == '.';
      }
    }
    hide StripDots, Split, Plain;
  }

  lemma NoOtherMarks(name: string, k: nat)
    requires Marked(name, k, "")
    ensures '\\' !in name && '\0' !in name
  {
    forall i | 0 <= i < |name|
      ensures name[i] == '.' || name[i] == '/'
    {
      assert i == 2 * (i / 2) || i == 2 * (i / 2) + 1;
      assert name[2 * (i / 2)] == '.' && name[2 * (i / 2) + 1] == '/';
    }
  }

  /**
   What the check returns, it accepts again unchanged, exactly when the first component does not
   start with a tilde: a tilde behind a `./` marker gets through the first time only.
   */
  lemma AcceptedAgainExactly(name: string)
    requires SafeName(name).Ok?
    ensures
      var parts := SafeName(name).value;
      && parts != [] && Plain(parts) && SlashFree(parts)
      && (SafeName(Join(parts)) == Ok(parts) <==> !StartsWith(parts[0], "~"))
  {
    var text := StripDots(name);
    var parts := Split(text);
    JoinSplit(text);
    SplitIsSlashFree(text);
    SplitHead(text);
    StrippedHasNoDots(name);
    assert parts[0] in parts;
    if '\\' in text {
      StripKeepsChars(name, '\\');
    }
    if '\0' in text {
      StripKeepsChars(name, '\0');
    }
    assert !BadText(text);
    assert text[0] == parts[0][0];
    assert StartsWith(text, "~") <==> StartsWith(parts[0], "~");
  }

  /** The tilde gets through. */
  lemma TildeGetsThrough()
    ensures SafeName("./~a") == Ok(["~a"]) && SafeName("~a").Err?
  {
    var name := "./~a";
    assert "~a"[0] == '~' && "./"[0] == '.';
    assert name[2..] == "~a" && StripDots("~a") == "~a";
    assert name[0] == '.' && "~"[0] == '~' && "/"[0] == '/';
    SplitPlain("~a");
  }

  // ----- following a link -----

  /** A lexical walk from a directory under the root; climbing above the root fails. */
  function Walk(at: seq<string>, parts: seq<string>): Option<seq<string>> {
    if parts == [] then Some(at)
    else
      var before := Walk(at, parts[..|parts| - 1]);
      var part := parts[|parts| - 1];
      if before.None? then None
      else if part == "" || part == "." then before
      else if part == ".." then
        if before.value == [] then None else Some(before.value[..|before.value| - 1])
      else Some(before.value + [part])
  }

  predicate Escapes(normalized: seq<string>) {
    normalized != [] && normalized[0] == ".."
  }

  /** A normalised path is some `..` components and then plain ones. */
  predicate DotsThenPlain(s: seq<string>) {
    if s == [] then true
    else if s[0] == ".." then DotsThenPlain(s[1..])
    else Plain(s)
  }

  lemma {:induction false} DotsThenPlainAppend(s: seq<string>, part: string)
    requires DotsThenPlain(s) && !Dotted(part)
    ensures DotsThenPlain(s + [part])
  {
    if s != [] && s[0] == ".." {
      DotsThenPlainAppend(s[1..], part);
      assert (s + [part])[1..] == s[1..] + [part];
    }
  }

  lemma {:induction false} DotsThenPlainUp(s: seq<string>)
    requires DotsThenPlain(s) && (s == [] || s[|s| - 1] == "..")
    ensures DotsThenPlain(s + [".."])
  {
    if s != [] {
      assert s[|s| - 1] in s;
      if |s| > 1 {
        DotsThenPlainUp(s[1..]);
      }
      assert (s + [".."])[1..] == s[1..] + [".."];
    }
  }

  lemma {:induction false} DotsThenPlainDrop(s: seq<string>)
    requires DotsThenPlain(s) && s != []
    ensures DotsThenPlain(s[..|s| - 1])
  {
    if |s| > 1 && s[0] == ".." {
      DotsThenPlainDrop(s[1..]);
      assert s[..|s| - 1][1..] == s[1..][..|s| - 2];
    }
  }

  lemma {:induction false} NormDots(parts: seq<string>)
    ensures DotsThenPlain(Norm(parts))
  {
    if parts != [] {
      var front, part := Norm(parts[..|parts| - 1]), parts[|parts| - 1];
      NormDots(parts[..|parts| - 1]);
      if part == ".." && (front == [] || front[|front| - 1] == "..") {
        DotsThenPlainUp(front);
      } else if part == ".." {
        DotsThenPlainDrop(front);
      } else if part != "" && part != "." {
        DotsThenPlainAppend(front, part);
      }
    }
  }

  /** The normalised join is the walk from the directory, or escapes when the walk climbs out. */
  lemma {:induction false} NormIsWalk(at: seq<string>, parts: seq<string>)
    requires Plain(at)
    ensures Walk(at, parts).None? <==> Escapes(Norm(at + parts))
    ensures Walk(at, parts).Some? ==> Norm(at + parts) == Walk(at, parts).value && Plain(Norm(at + parts))
    decreases |parts|
  {
    if parts == [] {
      assert at + parts == at;
      NormOfPlain(at);
      assert at != [] ==> at[0] in at;
    } else {
      var front := parts[..|parts| - 1];
      NormIsWalk(at, front);
      assert (at + parts)[..|at + parts| - 1] == at + front;
      NormDots(at + front);
      var done := Norm(at + front);
      assert done != [] ==> done[|done| - 1] in done;
      EscapeSteps(done, parts[|parts| - 1]);
    }
  }

  lemma EscapeSteps(done: seq<string>, part: string)
    requires DotsThenPlain(done)
    ensures Escapes(done) ==> Escapes(NormStep(done, part))
    ensures !Escapes(done) ==> Plain(done)
    ensures Plain(done) ==> (Escapes(NormStep(done, part)) <==> part == ".." && done == [])
  {
    if Escapes(done) && |done| == 1 {
      assert done[|done| - 1] == "..";
    }
    assert done != [] ==> done[0] in done && done[|done| - 1] in done;
  }

  /** Walking the normalised text of a link goes where walking the link itself goes. */
  lemma {:induction false} NormalizedWalksAlike(at: seq<string>, parts: seq<string>)
    ensures Walk(at, Norm(parts)) == Walk(at, parts)
    decreases |parts|
  {
    if parts != [] {
      var front, part := parts[..|parts| - 1], parts[|parts| - 1];
      NormalizedWalksAlike(at, front);
      var done := Norm(front);
      if part == ".." && done != [] && done[|done| - 1] != ".." {
        NormDots(front);
        LastIsPlain(done);
      } else if part != "" && part != "." {
        assert (done + [part])[..|done|] == done;
      }
    }
  }

  lemma {:induction false} LastIsPlain(s: seq<string>)
    requires DotsThenPlain(s) && s != [] && s[|s| - 1] != ".."
    ensures !Dotted(s[|s| - 1])
  {
    if s[0] == ".." {
      LastIsPlain(s[1..]);
    } else {
      assert s[|s| - 1] in s;
    }
  }

  // ----- link targets -----

  /** The directory of a member, as components. */
  function DirName(member: seq<string>): seq<string>
    requires member != []
  {
    member[..|member| - 1]
  }

  /** The accepted link text as components; `isPart` is the test for a download marker. */
  function SafeLink(member: seq<string>, link: string, isPart: bool): Result<seq<string>, PathError>
    requires member != []
  {
    if isPart then Err(PartName)
    else if BadText(link) then Err(InvalidText)
    else if StartsWith(link, "/") || StartsWith(link, "~") then Err(AbsoluteLink)
    else
      var target := Norm(DirName(member) + Split(link));
      if target == [] || Escapes(target) then Err(EscapingLink)
      else
        match SafeName(Join(target))
        case Err(e) => Err(e)
        case Ok(_) => Ok(Norm(Split(link)))
  }

  method SafeLinkTarget(member: seq<string>, link: string, isPart: bool) returns (r: Result<seq<string>, PathError>)
    requires member != []
    ensures r == SafeLink(member, link, isPart)
  {
    if isPart {
      return Err(PartName);
    }
    if link == "" || '\\' in link || '\0' in link {
      return Err(InvalidText);
    }
    if StartsWith(link, "/") || StartsWith(link, "~") {
      return Err(AbsoluteLink);
    }
    var target := NormParts(DirName(member) + Split(link));
    if target == [] || target[0] == ".." {
      return Err(EscapingLink);
    }
    var checked := SafeMemberName(Join(target));
    if checked.Err? {
      return Err(checked.error);
    }
    var text := NormParts(Split(link));
    r := Ok(text);
  }

  /** A member path as the name check returns it. */
  predicate IsMember(member: seq<string>) {
    member != [] && Plain(member) && SlashFree(member) && forall p | p in member :: '\\' !in p && '\0' !in p
  }

  lemma PlainPrefix(s: seq<string>, k: nat)
    requires k <= |s| && Plain(s)
    ensures Plain(s[..k])
  {
  }

  lemma {:induction false} WalkParts(at: seq<string>, parts: seq<string>, p: string)
    requires Walk(at, parts).Some? && p in Walk(at, parts).value
    ensures p in at || p in parts
  {
    if parts != [] {
      var before := Walk(at, parts[..|parts| - 1]);
      if p in before.value {
        WalkParts(at, parts[..|parts| - 1], p);
      }
    }
  }

  /** The check of a joined target: its text is clean, so only a leading tilde can fail it. */
  lemma TargetNameExactly(target: seq<string>)
    requires IsMember(target)
    ensures SafeName(Join(target)).Ok? <==> !StartsWith(target[0], "~")
    ensures SafeName(Join(target)).Ok? ==> SafeName(Join(target)).value == target
  {
    var text := Join(target);
    SplitJoin(target);
    SplitHead(text);
    CharsOfSplit(text, '\\');
    CharsOfSplit(text, '\0');
    assert target[0] in target;
    JoinIsNotEmpty(target);
    assert text[0] == target[0][0];
  }

  lemma JoinIsNotEmpty(parts: seq<string>)
    requires parts != [] && parts[0] != "" && SlashFree(parts)
    ensures Join(parts) != "" && Join(parts)[0] == parts[0][0] && Join(parts)[0] != '/'
  {
    assert parts[0] in parts;
    assert parts[0][0] in parts[0];
  }

  /**
   A link is accepted exactly when its text is clean and relative and, walked from the member's
   directory, it never climbs above the root, does not end at the root and does not end below a
   name with a leading tilde. The text handed on walks to the same place.
   */
  lemma LinkStaysInside(member: seq<string>, link: string)
    requires IsMember(member)
    ensures
      var walked := Walk(DirName(member), Split(link));
      && (SafeLink(member, link, false).Ok? <==>
            && !BadText(link) && !StartsWith(link, "/") && !StartsWith(link, "~")
            && walked.Some? && walked.value != [] && !StartsWith(walked.value[0], "~"))
      && (SafeLink(member, link, false).Ok? ==> Walk(DirName(member), SafeLink(member, link, false).value) == walked)
  {
    var at, parts := DirName(member), Split(link);
    PlainPrefix(member, |member| - 1);
    NormIsWalk(at, parts);
    NormalizedWalksAlike(at, parts);
    var walked := Walk(at, parts);
    if !BadText(link) && walked.Some? && walked.value != [] {
      var target := walked.value;
      SplitIsSlashFree(link);
      CharsOfSplit(link, '\\');
      CharsOfSplit(link, '\0');
      forall p | p in target ensures '/' !in p && '\\' !in p && '\0' !in p {
        WalkParts(at, parts, p);
      }
      assert IsMember(target);
      TargetNameExactly(target);
    }
    if walked.Some? && walked.value != [] {
      assert walked.value[0] in walked.value;
    }
  }
}
