/** `extract_video_id`: turn whatever the user typed into an 11-character
    YouTube video id, by trying five patterns in a fixed order on the
    whitespace-stripped input and returning the first capture. Each pattern is a
    hand-written matcher with the meaning Python's `re.search` gives it: the
    leftmost start position at which the pattern matches. */
module VideoId {
  import opened Wrappers
  import opened PyStr

  /** The `ValueError` raised when no pattern matches. */
  datatype Error = ValueError(message: string)

  datatype Result<T> = Ok(value: T) | Err(error: Error)

  const IdLength: nat := 11

  const NoIdMessage: string := "Could not extract video ID from URL"

  /** The character class `[0-9A-Za-z_-]`. */
  predicate IsIdChar(c: char) {
    ('0' <= c <= '9') || ('A' <= c <= 'Z') || ('a' <= c <= 'z') || c == '_' || c == '-'
  }

  /** Eleven id characters and nothing else. */
  predicate IsVideoId(s: string) {
    |s| == IdLength && forall k :: 0 <= k < |s| ==> IsIdChar(s[k])
  }

  /** `[0-9A-Za-z_-]{11}` matches at index `i` of `s`. */
  predicate IdRunAt(s: string, i: nat) {
    i + IdLength <= |s| && forall k :: i <= k < i + IdLength ==> IsIdChar(s[k])
  }

  /** The five entries of the pattern list, in the order they are tried. */
  datatype Pattern =
    | StandardOrShared  // (?:v=|\/)([0-9A-Za-z_-]{11}).*
    | Embed             // (?:embed\/)([0-9A-Za-z_-]{11})
    | ShortLink         // (?:youtu\.be\/)([0-9A-Za-z_-]{11})
    | Shorts            // (?:shorts\/)([0-9A-Za-z_-]{11})
    | BareId            // ^([0-9A-Za-z_-]{11})$

  const Patterns: seq<Pattern> := [StandardOrShared, Embed, ShortLink, Shorts, BareId]

  /** The literal that the embed, short-link and shorts patterns require in
      front of the id. */
  function Marker(p: Pattern): (m: string)
    requires p.Embed? || p.ShortLink? || p.Shorts?
  {
    match p
    case Embed => "embed/"
    case ShortLink => "youtu.be/"
    case Shorts => "shorts/"
  }

  /** The pattern matches when the regex engine starts at index `i`. The
      trailing `.*` of the first pattern also matches the empty string, so it
      never decides anything; `$` matches at the very end or just before a
      final newline. */
  predicate MatchesAt(p: Pattern, s: string, i: nat) {
    match p
    case StandardOrShared =>
      (OccursAt(s, "v=", i) && IdRunAt(s, i + 2)) || (OccursAt(s, "/", i) && IdRunAt(s, i + 1))
    case BareId =>
      i == 0 && IdRunAt(s, 0) && (|s| == IdLength || (|s| == IdLength + 1 && s[IdLength] == '\n'))
    case _ =>
      OccursAt(s, Marker(p), i) && IdRunAt(s, i + |Marker(p)|)
  }

  /** Where group 1 begins when the pattern matches at `i`. The `v=` and `/`
      alternatives start with different characters, so at most one of them
      applies at a given index. */
  function CaptureStart(p: Pattern, s: string, i: nat): (k: nat)
    requires MatchesAt(p, s, i)
    ensures IdRunAt(s, k)
  {
    match p
    case StandardOrShared => if OccursAt(s, "v=", i) && IdRunAt(s, i + 2) then i + 2 else i + 1
    case BareId => 0
    case _ => i + |Marker(p)|
  }

  /** `match.group(1)` for a match starting at `i`. */
  function Capture(p: Pattern, s: string, i: nat): (id: string)
    requires MatchesAt(p, s, i)
    ensures IsVideoId(id) && OccursAt(s, id, CaptureStart(p, s, i))
  {
    var k := CaptureStart(p, s, i);
    s[k..k + IdLength]
  }

  /** The leftmost index at or after `from` where the pattern matches, as
      `re.search` scans the string. */
  function Leftmost(p: Pattern, s: string, from: nat): (r: Option<nat>)
    requires from <= |s|
    ensures r.Some? ==> (from <= r.value <= |s| && MatchesAt(p, s, r.value)
      && forall j :: from <= j < r.value ==> !MatchesAt(p, s, j))
    ensures r.None? ==> forall j :: from <= j <= |s| ==> !MatchesAt(p, s, j)
    decreases |s| - from
  {
    if MatchesAt(p, s, from) then Some(from)
    else if from == |s| then None
    else Leftmost(p, s, from + 1)
  }

  /** `re.search(pattern, s)` followed by `match.group(1)`. */
  function Search(p: Pattern, s: string): (r: Option<string>)
    ensures r.Some? ==> IsVideoId(r.value) && IsInfix(r.value, s)
  {
    match Leftmost(p, s, 0)
    case Some(i) => Some(Capture(p, s, i))
    case None => None
  }

  /** The loop over the pattern list: the first pattern that finds a match
      decides the result. */
  function FirstMatch(ps: seq<Pattern>, s: string): (r: Option<string>)
    ensures r.Some? ==> IsVideoId(r.value) && IsInfix(r.value, s)
    decreases |ps|
  {
    if ps == [] then None
    else match Search(ps[0], s)
      case Some(id) => Some(id)
      case None => FirstMatch(ps[1..], s)
  }

  /** `extract_video_id(youtube_url)` */
  function ExtractVideoId(url: string): (r: Result<string>)
    ensures r.Ok? ==> IsVideoId(r.value) && IsInfix(r.value, Strip(url))
    ensures r.Err? ==> r.error == ValueError(NoIdMessage)
  {
    match FirstMatch(Patterns, Strip(url))
    case Some(id) => Ok(id)
    case None => Err(ValueError(NoIdMessage))
  }

  // ---------------------------------------------------------------------
  // How one `re.search` behaves

  /** `re.search` reports the leftmost match, and nothing else. */
  lemma SearchFindsLeftmost(p: Pattern, s: string, k: nat)
    requires k <= |s| && MatchesAt(p, s, k)
    requires forall j :: 0 <= j < k ==> !MatchesAt(p, s, j)
    ensures Search(p, s) == Some(Capture(p, s, k))
  {
  }

  /** `re.search` returns `None` exactly when the pattern matches nowhere. */
  lemma SearchFails(p: Pattern, s: string)
    ensures Search(p, s).None? <==> forall i :: 0 <= i <= |s| ==> !MatchesAt(p, s, i)
  {
  }

  // ---------------------------------------------------------------------
  // The loop over the pattern list

  /** The first pattern that matches decides the result, even when a later one
      would also match. */
  lemma {:induction false} FirstMatchPicks(ps: seq<Pattern>, s: string, k: nat)
    requires k < |ps| && Search(ps[k], s).Some?
    requires forall j :: 0 <= j < k ==> Search(ps[j], s).None?
    ensures FirstMatch(ps, s) == Search(ps[k], s)
    decreases k
  {
    if k > 0 {
      assert Search(ps[0], s).None?;
      FirstMatchPicks(ps[1..], s, k - 1);
    }
  }

  /** The loop falls through exactly when every pattern fails. */
  lemma {:induction false} FirstMatchFails(ps: seq<Pattern>, s: string)
    ensures FirstMatch(ps, s).None? <==> forall k :: 0 <= k < |ps| ==> Search(ps[k], s).None?
    decreases |ps|
  {
    if ps != [] {
      FirstMatchFails(ps[1..], s);
      assert forall k :: 1 <= k < |ps| ==> ps[k] == ps[1..][k - 1];
    }
  }

  // ---------------------------------------------------------------------
  // Properties of extract_video_id

  /** Leading and trailing whitespace never changes the outcome. */
  lemma ExtractIgnoresPadding(w1: string, url: string, w2: string)
    requires AllSpace(w1) && AllSpace(w2)
    ensures ExtractVideoId(w1 + url + w2) == ExtractVideoId(url)
  {
    StripIgnoresPadding(w1, url, w2);
  }

  /** The returned id is a contiguous part of the input as typed. */
  lemma ExtractedIdIsInfix(url: string)
    requires ExtractVideoId(url).Ok?
    ensures IsInfix(ExtractVideoId(url).value, url)
  {
    StripIsInfix(url);
    InfixTransitive(ExtractVideoId(url).value, Strip(url), url);
  }

  /** Each of the embed, short-link and shorts markers ends in `/`, so a match
      of one of them is also a match of the first pattern's `/` alternative. */
  lemma MarkerMatchIsSlashMatch(p: Pattern, s: string, i: nat)
    requires p.Embed? || p.ShortLink? || p.Shorts?
    requires MatchesAt(p, s, i)
    ensures MatchesAt(StandardOrShared, s, i + |Marker(p)| - 1)
  {
    var m := Marker(p);
    assert m[|m| - 1] == '/';
    assert s[i + |m| - 1] == s[i..i + |m|][|m| - 1];
    assert s[i + |m| - 1..i + |m|] == "/";
  }

  /** A pattern of the embed, short-link or shorts kind finds something only if
      the first pattern finds something too. */
  lemma MarkerSearchImpliesStandard(p: Pattern, s: string)
    requires p.Embed? || p.ShortLink? || p.Shorts?
    requires Search(p, s).Some?
    ensures Search(StandardOrShared, s).Some?
  {
    var i := Leftmost(p, s, 0).value;
    MarkerMatchIsSlashMatch(p, s, i);
  }

  /** The embed, short-link and shorts patterns never decide the result: the
      list behaves exactly like the first pattern followed by the bare-id one. */
  lemma MiddlePatternsNeverDecide(s: string)
    ensures FirstMatch(Patterns, s) == FirstMatch([StandardOrShared, BareId], s)
  {
    if Search(StandardOrShared, s).None? {
      if Search(Embed, s).Some? { MarkerSearchImpliesStandard(Embed, s); }
      if Search(ShortLink, s).Some? { MarkerSearchImpliesStandard(ShortLink, s); }
      if Search(Shorts, s).Some? { MarkerSearchImpliesStandard(Shorts, s); }
    }
  }

  /** After `strip()` there is no final newline, so `^...$` matches exactly an
      input of eleven id characters. */
  lemma BareIdMatchOnStripped(s: string)
    requires Trimmed(s)
    ensures MatchesAt(BareId, s, 0) <==> IsVideoId(s)
  {
  }

  /** Extraction succeeds exactly when the stripped input has `v=` or `/`
      followed by eleven id characters somewhere, or is itself an id. */
  lemma ExtractSucceedsIff(url: string)
    ensures ExtractVideoId(url).Ok? <==>
      (exists i :: 0 <= i <= |Strip(url)| && MatchesAt(StandardOrShared, Strip(url), i))
      || IsVideoId(Strip(url))
  {
    var t := Strip(url);
    MiddlePatternsNeverDecide(t);
    StripSplits(url);
    BareIdMatchOnStripped(t);
    FirstMatchFails([StandardOrShared, BareId], t);
    SearchFails(StandardOrShared, t);
    SearchFails(BareId, t);
  }

  /** The leftmost `v=` or `/` followed by eleven id characters decides the id,
      whatever follows it and whatever the later patterns would find. */
  lemma LeftmostStandardMatchDecides(url: string, k: nat)
    requires k <= |Strip(url)| && MatchesAt(StandardOrShared, Strip(url), k)
    requires forall j :: 0 <= j < k ==> !MatchesAt(StandardOrShared, Strip(url), j)
    ensures ExtractVideoId(url) == Ok(Capture(StandardOrShared, Strip(url), k))
  {
    SearchFindsLeftmost(StandardOrShared, Strip(url), k);
  }

  /** A stripped input of exactly eleven id characters is returned unchanged,
      however it is padded with whitespace. */
  lemma BareIdReturnedUnchanged(w1: string, id: string, w2: string)
    requires IsVideoId(id) && AllSpace(w1) && AllSpace(w2)
    ensures ExtractVideoId(w1 + id + w2) == Ok(id)
  {
    ExtractIgnoresPadding(w1, id, w2);
    BareIdAlone(id);
  }

  lemma BareIdAlone(id: string)
    requires IsVideoId(id)
    ensures ExtractVideoId(id) == Ok(id)
  {
    IdIsStripped(id);
    BareIdSearch(id);
  }

  /** The pattern list run on an id alone gives back the id. */
  lemma BareIdSearch(id: string)
    requires IsVideoId(id)
    ensures FirstMatch(Patterns, id) == Some(id)
  {
    IdHasNoStandardMatch(id);
    SearchFails(StandardOrShared, id);
    assert Search(StandardOrShared, id) == None;
    SearchFindsLeftmost(BareId, id, 0);
    assert id[0..IdLength] == id;
    assert Search(BareId, id) == Some(id);
    FirstMatchPicks([StandardOrShared, BareId], id, 1);
    MiddlePatternsNeverDecide(id);
  }

  lemma IdIsStripped(id: string)
    requires IsVideoId(id)
    ensures Strip(id) == id
  {
    IdCharIsNotSpace(id[0]);
    IdCharIsNotSpace(id[|id| - 1]);
    assert [] + id + [] == id;
    StripOf([], id, []);
  }

  /** Both alternatives of the first pattern need at least twelve characters,
      so an id on its own never matches it. */
  lemma IdHasNoStandardMatch(id: string)
    requires IsVideoId(id)
    ensures forall i :: 0 <= i <= |id| ==> !MatchesAt(StandardOrShared, id, i)
  {
  }

  lemma IdCharIsNotSpace(c: char)
    requires IsIdChar(c)
    ensures !IsSpace(c)
  {
  }

  lemma OccursAtHead(s: string, p: string, i: nat)
    requires p != [] && i < |s|
    ensures OccursAt(s, p, i) ==> s[i] == p[0]
  {
    if i + |p| <= |s| {
      assert s[i..i + |p|][0] == s[i];
    }
  }
}
