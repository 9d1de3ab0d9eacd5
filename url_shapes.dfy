/** The URL shapes the pattern list of `extract_video_id` is written for:
    the watch, short-link, embed and shorts addresses each give back the id
    they carry, whatever follows it. */
module UrlShapes {
  import opened Wrappers
  import opened PyStr
  import opened VideoId

  /** In `prefix + id + rest`, where `prefix` ends in `v=` or `/`, the id is
      what comes out, provided the first pattern matches nowhere earlier in
      `prefix + id` (a window of that pattern is at most thirteen characters
      long, so `rest` is never reached before the id). */
  lemma ShapeDecides(prefix: string, id: string, rest: string, k: nat)
    requires IsVideoId(id) && prefix != [] && !IsSpace(prefix[0])
    requires (k + 2 == |prefix| && prefix[k..] == "v=") || (k + 1 == |prefix| && prefix[k..] == "/")
    requires NoneBefore(prefix + id, k)
    ensures ExtractVideoId(prefix + id + rest) == Ok(id)
  {
    var u := prefix + id;
    IdCharIsNotSpace(id[|id| - 1]);
    StripKeepsPrefix(u, rest);
    assert prefix + id + rest == u + rest;
    ShapeSearch(prefix, id, StripEnd(rest), k);
    FirstMatchPicks(Patterns, u + StripEnd(rest), 0);
  }

  lemma ShapeSearch(prefix: string, id: string, v: string, k: nat)
    requires IsVideoId(id)
    requires (k + 2 == |prefix| && prefix[k..] == "v=") || (k + 1 == |prefix| && prefix[k..] == "/")
    requires NoneBefore(prefix + id, k)
    ensures Search(StandardOrShared, prefix + id + v) == Some(id)
  {
    var u := prefix + id;
    var t := u + v;
    assert prefix + id + v == t;
    forall j | 0 <= j < k
      ensures !MatchesAt(StandardOrShared, t, j)
    {
      MatchExtends(u, v, j);
    }
    assert t[k..|prefix|] == prefix[k..];
    assert t[|prefix|..|prefix| + IdLength] == id;
    assert MatchesAt(StandardOrShared, t, k);
    assert t[k] == prefix[k..][0];
    OccursAtHead(t, "v=", k);
    assert CaptureStart(StandardOrShared, t, k) == |prefix|;
    SearchFindsLeftmost(StandardOrShared, t, k);
  }

  /** Whether the first pattern matches at `j` depends only on the thirteen
      characters from `j` on. */
  lemma MatchExtends(u: string, v: string, j: nat)
    requires j + 13 <= |u|
    ensures MatchesAt(StandardOrShared, u + v, j) == MatchesAt(StandardOrShared, u, j)
  {
    assert (u + v)[j..j + 2] == u[j..j + 2];
    assert (u + v)[j..j + 1] == u[j..j + 1];
    assert forall k :: j <= k < j + 13 ==> (u + v)[k] == u[k];
    assert IdRunAt(u + v, j + 1) == IdRunAt(u, j + 1);
    assert IdRunAt(u + v, j + 2) == IdRunAt(u, j + 2);
  }

  /** The first pattern matches nowhere before index `n` of `s`. */
  predicate NoneBefore(s: string, n: nat) {
    forall j :: 0 <= j < n ==> !MatchesAt(StandardOrShared, s, j)
  }

  /** The shape of an address prefix: it does not start with whitespace, it
      ends in `v=` or `/` at index `k`, no `v` occurs before `k`, and every
      `/` before `k` is one of `slashes`, each of which is followed, within
      eleven characters, by the non-id character at the index `bad` lists
      beside it. */
  predicate Shape(prefix: string, k: nat, slashes: seq<nat>, bad: seq<nat>) {
    && prefix != [] && !IsSpace(prefix[0])
    && ((k + 2 == |prefix| && prefix[k..] == "v=") || (k + 1 == |prefix| && prefix[k..] == "/"))
    && NoMarkBefore(prefix, k, slashes)
    && SlashesBlocked(prefix, slashes, bad)
  }

  predicate NoMarkBefore(prefix: string, k: nat, slashes: seq<nat>) {
    forall j :: 0 <= j < k && j < |prefix| ==> prefix[j] != 'v' && (prefix[j] == '/' ==> j in slashes)
  }

  predicate SlashesBlocked(prefix: string, slashes: seq<nat>, bad: seq<nat>) {
    |slashes| == |bad| && forall i :: 0 <= i < |slashes| ==> BlockedAt(prefix, slashes[i], bad[i])
  }

  /** A `/` at `j` followed by the non-id character at `b`, at most eleven
      characters on. */
  predicate BlockedAt(prefix: string, j: nat, b: nat) {
    j < b <= j + IdLength && b < |prefix| && prefix[j] == '/' && !IsIdChar(prefix[b])
  }

  /** Any prefix of that shape, followed by an id and anything else, yields
      the id. */
  lemma ShapeYieldsId(prefix: string, id: string, rest: string, k: nat, slashes: seq<nat>, bad: seq<nat>)
    requires Shape(prefix, k, slashes, bad) && IsVideoId(id)
    ensures ExtractVideoId(prefix + id + rest) == Ok(id)
  {
    PrefixClear(prefix, id, k, slashes, bad);
    ShapeDecides(prefix, id, rest, k);
  }

  /** No match of the first pattern starts before `k` in a prefix of that
      shape followed by an id. */
  lemma PrefixClear(prefix: string, id: string, k: nat, slashes: seq<nat>, bad: seq<nat>)
    requires Shape(prefix, k, slashes, bad)
    ensures NoneBefore(prefix + id, k)
  {
    var u := prefix + id;
    forall j | 0 <= j < k
      ensures !MatchesAt(StandardOrShared, u, j)
    {
      assert u[j] == prefix[j];
      OccursAtHead(u, "v=", j);
      OccursAtHead(u, "/", j);
      if prefix[j] == '/' {
        var i :| 0 <= i < |slashes| && slashes[i] == j;
        assert BlockedAt(prefix, j, bad[i]);
        assert u[bad[i]] == prefix[bad[i]];
      }
    }
  }
}

/** The watch, short-link, embed and shorts addresses each give back the id
    they carry, whatever follows it. */
module CanonicalUrls {
  import opened VideoId
  import opened UrlShapes

  /** The address prefixes the pattern list is written for. */
  const WatchPrefix: string := "https://www.youtube.com/watch?v="
  const ShortLinkPrefix: string := "https://youtu.be/"
  const EmbedPrefix: string := "https://www.youtube.com/embed/"
  const ShortsPrefix: string := "https://www.youtube.com/shorts/"

  /** `https://www.youtube.com/watch?v=<id>...` yields the id. */
  lemma WatchUrlYieldsId(id: string, rest: string)
    requires IsVideoId(id)
    ensures ExtractVideoId(WatchPrefix + id + rest) == Ok(id)
  {
    WatchShape();
    ShapeYieldsId(WatchPrefix, id, rest, 30, [6, 7, 23], [7, 11, 29]);
  }

  lemma WatchShape()
    ensures Shape(WatchPrefix, 30, [6, 7, 23], [7, 11, 29])
  {
    WatchMarks();
    WatchSlashes();
  }

  lemma WatchSlashes()
    ensures SlashesBlocked(WatchPrefix, [6, 7, 23], [7, 11, 29])
  {
    assert BlockedAt(WatchPrefix, 6, 7) && BlockedAt(WatchPrefix, 7, 11) && BlockedAt(WatchPrefix, 23, 29);
  }

  lemma WatchMarks()
    ensures NoMarkBefore(WatchPrefix, 30, [6, 7, 23])
  {
  }

  /** `https://youtu.be/<id>...` yields the id. */
  lemma ShortLinkUrlYieldsId(id: string, rest: string)
    requires IsVideoId(id)
    ensures ExtractVideoId(ShortLinkPrefix + id + rest) == Ok(id)
  {
    ShortLinkShape();
    ShapeYieldsId(ShortLinkPrefix, id, rest, 16, [6, 7], [7, 13]);
  }

  lemma ShortLinkShape()
    ensures Shape(ShortLinkPrefix, 16, [6, 7], [7, 13])
  {
    ShortLinkMarks();
    ShortLinkSlashes();
  }

  lemma ShortLinkSlashes()
    ensures SlashesBlocked(ShortLinkPrefix, [6, 7], [7, 13])
  {
    assert BlockedAt(ShortLinkPrefix, 6, 7) && BlockedAt(ShortLinkPrefix, 7, 13);
  }

  lemma ShortLinkMarks()
    ensures NoMarkBefore(ShortLinkPrefix, 16, [6, 7])
  {
  }

  /** `https://www.youtube.com/embed/<id>...` yields the id. */
  lemma EmbedUrlYieldsId(id: string, rest: string)
    requires IsVideoId(id)
    ensures ExtractVideoId(EmbedPrefix + id + rest) == Ok(id)
  {
    EmbedShape();
    ShapeYieldsId(EmbedPrefix, id, rest, 29, [6, 7, 23], [7, 11, 29]);
  }

  lemma EmbedShape()
    ensures Shape(EmbedPrefix, 29, [6, 7, 23], [7, 11, 29])
  {
    EmbedMarks();
    EmbedSlashes();
  }

  lemma EmbedSlashes()
    ensures SlashesBlocked(EmbedPrefix, [6, 7, 23], [7, 11, 29])
  {
    assert BlockedAt(EmbedPrefix, 6, 7) && BlockedAt(EmbedPrefix, 7, 11) && BlockedAt(EmbedPrefix, 23, 29);
  }

  lemma EmbedMarks()
    ensures NoMarkBefore(EmbedPrefix, 29, [6, 7, 23])
  {
  }

  /** `https://www.youtube.com/shorts/<id>...` yields the id. */
  lemma ShortsUrlYieldsId(id: string, rest: string)
    requires IsVideoId(id)
    ensures ExtractVideoId(ShortsPrefix + id + rest) == Ok(id)
  {
    ShortsShape();
    ShapeYieldsId(ShortsPrefix, id, rest, 30, [6, 7, 23], [7, 11, 30]);
  }

  lemma ShortsShape()
    ensures Shape(ShortsPrefix, 30, [6, 7, 23], [7, 11, 30])
  {
    ShortsMarks();
    ShortsSlashes();
  }

  lemma ShortsSlashes()
    ensures SlashesBlocked(ShortsPrefix, [6, 7, 23], [7, 11, 30])
  {
    assert BlockedAt(ShortsPrefix, 6, 7) && BlockedAt(ShortsPrefix, 7, 11) && BlockedAt(ShortsPrefix, 23, 30);
  }

  lemma ShortsMarks()
    ensures NoMarkBefore(ShortsPrefix, 30, [6, 7, 23])
  {
  }
}
