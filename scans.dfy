/**
 * The scan orchestrator of mtgproxies/scans.py (`fetch_scans_scryfall`):
 * a decklist becomes one or more ordered lists of resolved card images,
 * either one combined list or one list per face position.
 *
 * A card is a copy count and its faces in order. The same datatype holds a
 * decklist entry (faces given by their "png" image URL) and a resolved entry
 * (faces given by the image the resolver returned for that URL). The image
 * resolver `scryfall.get_image` is a parameter: it either returns an image or
 * fails, and a failure aborts the whole call.
 */
module Scans {

  type Url = string

  /** A decklist entry: `count` copies of a card whose faces are listed in order. */
  datatype Card<T> = Card(count: nat, faces: seq<T>)

  /** What the image resolver returns for one URL. */
  datatype Fetch<Img> = Fetched(scan: Img) | Unfetchable

  /** The result of an orchestration: a value, or the URL whose resolution failed. */
  datatype Outcome<T> = Ok(value: T) | Failed(url: Url)

  /** An outcome together with the URLs handed to the resolver to reach it, in order. */
  datatype Run<T> = Run(outcome: Outcome<T>, calls: seq<Url>)

  function Max(a: nat, b: nat): nat { if a < b then b else a }

  function Min(a: nat, b: nat): nat { if a < b then a else b }

  function DropLast<T>(s: seq<T>): seq<T>
    requires s != []
  {
    s[..|s| - 1]
  }

  function Last<T>(s: seq<T>): T
    requires s != []
  {
    s[|s| - 1]
  }

  lemma PrefixSnoc<T>(s: seq<T>, i: nat)
    requires i < |s|
    ensures s[..i + 1] == s[..i] + [s[i]]
    ensures DropLast(s[..i + 1]) == s[..i] && Last(s[..i + 1]) == s[i]
  {
  }

  /** Appending to a non-empty sequence keeps its last element. */
  lemma AppendSnoc<T>(a: seq<T>, b: seq<T>)
    requires b != []
    ensures a + b != [] && DropLast(a + b) == a + DropLast(b) && Last(a + b) == Last(b)
  {
  }

  /** A sequence is the part before position `i`, the element at `i` and the part after it. */
  lemma SplitAt<T>(s: seq<T>, i: nat)
    requires i < |s|
    ensures s == s[..i] + [s[i]] + s[i + 1..]
    ensures DropLast([s[i]]) == [] && Last([s[i]]) == s[i]
  {
  }

  /** Python's `[x] * n`. */
  function Repeat<T>(x: T, n: nat): (r: seq<T>)
    ensures |r| == n
    ensures forall k :: 0 <= k < n ==> r[k] == x
  {
    if n == 0 then [] else Repeat(x, n - 1) + [x]
  }

  // ---------------------------------------------------------------------
  // Combined mode, on a deck whose faces are already known values
  // ---------------------------------------------------------------------

  /** The faces in order, each repeated `n` times. */
  function Blocks<T>(faces: seq<T>, n: nat): seq<T> {
    if faces == [] then [] else Blocks(DropLast(faces), n) + Repeat(Last(faces), n)
  }

  /** The combined list: cards in decklist order, faces in face order, copies innermost. */
  function Flatten<T>(deck: seq<Card<T>>): seq<T> {
    if deck == [] then [] else Flatten(DropLast(deck)) + Blocks(Last(deck).faces, Last(deck).count)
  }

  /** The number of printed images the deck asks for: the sum of `count * |faces|`. */
  function Total<T>(deck: seq<Card<T>>): nat {
    if deck == [] then 0 else Total(DropLast(deck)) + Last(deck).count * |Last(deck).faces|
  }

  /** Every face of every card, once each, in decklist and face order. */
  function Faces<T>(deck: seq<Card<T>>): seq<T> {
    if deck == [] then [] else Faces(DropLast(deck)) + Last(deck).faces
  }

  // ---------------------------------------------------------------------
  // Separate mode, on a deck whose faces are already known values
  // ---------------------------------------------------------------------

  /** The largest face count of any card, whatever its copy count; 0 for an empty deck. */
  function MaxFaces<T>(deck: seq<Card<T>>): (m: nat)
    ensures forall i :: 0 <= i < |deck| ==> |deck[i].faces| <= m
    ensures deck == [] ==> m == 0
    ensures deck != [] ==> exists i :: 0 <= i < |deck| && |deck[i].faces| == m
  {
    if deck == [] then 0
    else
      var m := MaxFaces(DropLast(deck));
      assert DropLast(deck) != [] ==> exists i :: 0 <= i < |DropLast(deck)| && |deck[i].faces| == m;
      Max(m, |Last(deck).faces|)
  }

  /**
   * Face list `i`: in decklist order, the copies of the `i`-th face of every
   * card that has one. Cards with fewer faces add nothing.
   */
  function FaceColumn<T>(deck: seq<Card<T>>, i: nat): seq<T>
  {
    if deck == [] then []
    else
      var c := Last(deck);
      FaceColumn(DropLast(deck), i) + (if i < |c.faces| then Repeat(c.faces[i], c.count) else [])
  }

  /** No list beyond the largest face count receives anything. */
  lemma {:induction false} FaceColumnBeyond<T>(deck: seq<Card<T>>, i: nat)
    requires MaxFaces(deck) <= i
    ensures FaceColumn(deck, i) == []
    decreases |deck|
  {
    if deck != [] {
      FaceColumnBeyond(DropLast(deck), i);
    }
  }

  /** The separate-mode lists: one per face position up to the largest face count. */
  function Columns<T>(deck: seq<Card<T>>): seq<seq<T>> {
    seq(MaxFaces(deck), i requires 0 <= i < MaxFaces(deck) => FaceColumn(deck, i))
  }

  /** The total length of a list of lists. */
  function SumLengths<T>(lists: seq<seq<T>>): nat {
    if lists == [] then 0 else SumLengths(DropLast(lists)) + |Last(lists)|
  }

  // ---------------------------------------------------------------------
  // Resolution of URLs to images
  // ---------------------------------------------------------------------

  predicate AllFetched<Img>(urls: seq<Url>, resolve: Url -> Fetch<Img>) {
    forall k :: 0 <= k < |urls| ==> resolve(urls[k]).Fetched?
  }

  /**
   * The resolver calls made for `urls` taken in order, stopping at the first
   * one that fails: every URL up to and including the first failure.
   */
  function Trace<Img>(urls: seq<Url>, resolve: Url -> Fetch<Img>): (t: seq<Url>)
    ensures t <= urls
    ensures forall k :: 0 <= k < |t| - 1 ==> resolve(t[k]).Fetched?
    ensures AllFetched(urls, resolve) ==> t == urls
    ensures !AllFetched(urls, resolve) ==> t != [] && resolve(Last(t)).Unfetchable?
  {
    if urls == [] then []
    else if AllFetched(DropLast(urls), resolve) then urls
    else Trace(DropLast(urls), resolve)
  }

  /** `scans` is what `resolve` returns, face by face, for `faces`. */
  ghost predicate ResolvesFaces<Img>(faces: seq<Url>, scans: seq<Img>, resolve: Url -> Fetch<Img>) {
    |scans| == |faces| && forall j :: 0 <= j < |faces| ==> resolve(faces[j]) == Fetched(scans[j])
  }

  /** `done` is `deck` with every face URL replaced by its resolved image. */
  ghost predicate Resolves<Img>(deck: seq<Card<Url>>, done: seq<Card<Img>>, resolve: Url -> Fetch<Img>) {
    && |done| == |deck|
    && forall i :: 0 <= i < |deck| ==>
         done[i].count == deck[i].count && ResolvesFaces(deck[i].faces, done[i].faces, resolve)
  }

  /** Resolves the faces of one card in order; the first failure aborts. */
  function ResolveFaces<Img>(faces: seq<Url>, resolve: Url -> Fetch<Img>): (r: Outcome<seq<Img>>)
    ensures r.Ok? <==> AllFetched(faces, resolve)
    ensures r.Ok? ==> ResolvesFaces(faces, r.value, resolve)
    ensures r.Failed? ==> r.url == Last(Trace(faces, resolve))
  {
    if faces == [] then Ok([])
    else
      match ResolveFaces(DropLast(faces), resolve)
      case Failed(u) => Failed(u)
      case Ok(scans) =>
        match resolve(Last(faces))
        case Unfetchable => Failed(Last(faces))
        case Fetched(img) => Ok(scans + [img])
  }

  /** Resolves every face of every card, in decklist and face order; the first failure aborts. */
  function ResolveDeck<Img>(deck: seq<Card<Url>>, resolve: Url -> Fetch<Img>): (r: Outcome<seq<Card<Img>>>)
    ensures r.Ok? <==> AllFetched(Faces(deck), resolve)
    ensures r.Ok? ==> Resolves(deck, r.value, resolve)
    ensures r.Failed? ==> r.url == Last(Trace(Faces(deck), resolve))
  {
    if deck == [] then Ok([])
    else
      var c := Last(deck);
      AllFetchedAppend(Faces(DropLast(deck)), c.faces, resolve);
      match ResolveDeck(DropLast(deck), resolve)
      case Failed(u) =>
        TraceAfterFailure(Faces(DropLast(deck)), c.faces, resolve);
        Failed(u)
      case Ok(done) =>
        match ResolveFaces(c.faces, resolve)
        case Failed(u) =>
          TraceAfterFetched(Faces(DropLast(deck)), c.faces, resolve);
          Failed(u)
        case Ok(scans) => Ok(done + [Card(c.count, scans)])
  }

  lemma AllFetchedAppend<Img>(a: seq<Url>, b: seq<Url>, resolve: Url -> Fetch<Img>)
    ensures AllFetched(a + b, resolve) <==> AllFetched(a, resolve) && AllFetched(b, resolve)
  {
    if AllFetched(a, resolve) && AllFetched(b, resolve) {
      forall k | 0 <= k < |a + b| ensures resolve((a + b)[k]).Fetched? {
        if k >= |a| { assert (a + b)[k] == b[k - |a|]; }
      }
    }
    if AllFetched(a + b, resolve) {
      forall k | 0 <= k < |a| ensures resolve(a[k]).Fetched? {
        assert (a + b)[k] == a[k];
      }
      forall k | 0 <= k < |b| ensures resolve(b[k]).Fetched? {
        assert (a + b)[|a| + k] == b[k];
      }
    }
  }

  /** Once a URL of `a` has failed, nothing of `b` is asked for. */
  lemma {:induction false} TraceAfterFailure<Img>(a: seq<Url>, b: seq<Url>, resolve: Url -> Fetch<Img>)
    requires !AllFetched(a, resolve)
    ensures Trace(a + b, resolve) == Trace(a, resolve)
    decreases |b|
  {
    if b != [] {
      assert DropLast(a + b) == a + DropLast(b);
      AllFetchedAppend(a, DropLast(b), resolve);
      TraceAfterFailure(a, DropLast(b), resolve);
    } else {
      assert a + b == a;
    }
  }

  /** When all of `a` resolves, the calls go on into `b`. */
  lemma {:induction false} TraceAfterFetched<Img>(a: seq<Url>, b: seq<Url>, resolve: Url -> Fetch<Img>)
    requires AllFetched(a, resolve)
    ensures Trace(a + b, resolve) == a + Trace(b, resolve)
    decreases |b|
  {
    if b == [] {
      assert a + b == a;
    } else {
      assert DropLast(a + b) == a + DropLast(b);
      AllFetchedAppend(a, DropLast(b), resolve);
      if !AllFetched(DropLast(b), resolve) {
        TraceAfterFetched(a, DropLast(b), resolve);
      }
    }
  }

  /** A failing URL after a run of resolving ones is the last call made. */
  lemma {:induction false} TraceStopsAtFailure<Img>(a: seq<Url>, b: seq<Url>, resolve: Url -> Fetch<Img>)
    requires a != [] && AllFetched(DropLast(a), resolve) && resolve(Last(a)).Unfetchable?
    ensures Trace(a + b, resolve) == a
    decreases |b|
  {
    if b == [] {
      assert a + b == a;
    } else {
      assert DropLast(a + b) == a + DropLast(b);
      assert (a + DropLast(b))[|a| - 1] == Last(a);
      TraceStopsAtFailure(a, DropLast(b), resolve);
    }
  }

  lemma {:induction false} FacesAppend<T>(a: seq<Card<T>>, b: seq<Card<T>>)
    ensures Faces(a + b) == Faces(a) + Faces(b)
    decreases |b|
  {
    if b == [] {
      assert a + b == a;
    } else {
      var front, c := DropLast(b), Last(b);
      AppendSnoc(a, b);
      FacesAppend(a, front);
      calc {
        Faces(a + b);
        Faces(a + front) + c.faces;
        (Faces(a) + Faces(front)) + c.faces;
        Faces(a) + (Faces(front) + c.faces);
        Faces(a) + Faces(b);
      }
    }
  }

  /**
   * Each card's faces occur in the list of resolver calls exactly once, at
   * the card's place in the decklist, whatever its copy count.
   */
  lemma FacesSplit<T>(deck: seq<Card<T>>, i: nat)
    requires i < |deck|
    ensures Faces(deck) == Faces(deck[..i]) + deck[i].faces + Faces(deck[i + 1..])
  {
    var pre, c, post := deck[..i], deck[i], deck[i + 1..];
    SplitAt(deck, i);
    FacesAppend(pre + [c], post);
    FacesAppend(pre, [c]);
    assert Faces([c]) == c.faces;
  }

  // ---------------------------------------------------------------------
  // Combined mode as the source writes it: resolution inside the expansion
  // ---------------------------------------------------------------------

  /**
   * One card's part of the comprehension: resolve each face once, in face
   * order, then repeat its image `n` times. The URLs handed to the resolver
   * are those of `Trace`, one per face whatever `n` is, up to the first
   * failure.
   */
  function CombinedCard<Img>(faces: seq<Url>, n: nat, resolve: Url -> Fetch<Img>): (r: Run<seq<Img>>)
    ensures r.calls == Trace(faces, resolve)
    ensures r.outcome.Ok? <==> AllFetched(faces, resolve)
    ensures r.outcome.Failed? ==> r.calls != [] && r.outcome.url == Last(r.calls)
  {
    if faces == [] then Run(Ok([]), [])
    else
      var front, x := DropLast(faces), Last(faces);
      assert faces == front + [x];
      AllFetchedAppend(front, [x], resolve);
      var prev := CombinedCard(front, n, resolve);
      match prev.outcome
      case Failed(u) => Run(Failed(u), prev.calls)
      case Ok(s) =>
        match resolve(x)
        case Unfetchable => Run(Failed(x), prev.calls + [x])
        case Fetched(img) => Run(Ok(s + Repeat(img, n)), prev.calls + [x])
  }

  /**
   * The combined-mode comprehension over the whole decklist, with the URLs
   * it hands to the resolver: every face of every card in decklist and face
   * order, up to the first failure.
   */
  function Combined<Img>(deck: seq<Card<Url>>, resolve: Url -> Fetch<Img>): (r: Run<seq<Img>>)
    ensures r.calls == Trace(Faces(deck), resolve)
    ensures r.outcome.Ok? <==> AllFetched(Faces(deck), resolve)
    ensures r.outcome.Failed? ==> r.calls != [] && r.outcome.url == Last(r.calls)
  {
    if deck == [] then Run(Ok([]), [])
    else
      var front, c := DropLast(deck), Last(deck);
      AllFetchedAppend(Faces(front), c.faces, resolve);
      var prev := Combined(front, resolve);
      match prev.outcome
      case Failed(u) =>
        TraceAfterFailure(Faces(front), c.faces, resolve);
        Run(Failed(u), prev.calls)
      case Ok(s) =>
        TraceAfterFetched(Faces(front), c.faces, resolve);
        var card := CombinedCard(c.faces, c.count, resolve);
        match card.outcome
        case Failed(u) => Run(Failed(u), prev.calls + card.calls)
        case Ok(t) => Run(Ok(s + t), prev.calls + card.calls)
  }

  lemma {:induction false} CombinedCardResolvesThenBlocks<Img>(faces: seq<Url>, n: nat, resolve: Url -> Fetch<Img>)
    ensures ResolveFaces(faces, resolve).Ok? ==>
              CombinedCard(faces, n, resolve).outcome == Ok(Blocks(ResolveFaces(faces, resolve).value, n))
    ensures ResolveFaces(faces, resolve).Failed? ==>
              CombinedCard(faces, n, resolve).outcome == Failed(ResolveFaces(faces, resolve).url)
    decreases |faces|
  {
    if faces != [] {
      CombinedCardResolvesThenBlocks(DropLast(faces), n, resolve);
      var r := ResolveFaces(DropLast(faces), resolve);
      if r.Ok? && resolve(Last(faces)).Fetched? {
        var s := r.value + [resolve(Last(faces)).scan];
        assert DropLast(s) == r.value;
      }
    }
  }

  /**
   * Resolving inside the comprehension is the same as resolving every face
   * first and then flattening: the same images in the same order, or the
   * same first failure.
   */
  lemma {:induction false} CombinedResolvesThenFlattens<Img>(deck: seq<Card<Url>>, resolve: Url -> Fetch<Img>)
    ensures ResolveDeck(deck, resolve).Ok? ==>
              Combined(deck, resolve).outcome == Ok(Flatten(ResolveDeck(deck, resolve).value))
    ensures ResolveDeck(deck, resolve).Failed? ==>
              Combined(deck, resolve).outcome == Failed(ResolveDeck(deck, resolve).url)
    decreases |deck|
  {
    if deck != [] {
      CombinedResolvesThenFlattens(DropLast(deck), resolve);
      var c := Last(deck);
      CombinedCardResolvesThenBlocks(c.faces, c.count, resolve);
      var r := ResolveDeck(DropLast(deck), resolve);
      var f := ResolveFaces(c.faces, resolve);
      if r.Ok? && f.Ok? {
        var done := r.value + [Card(c.count, f.value)];
        assert DropLast(done) == r.value;
      }
    }
  }

  // ---------------------------------------------------------------------
  // Separate mode as the source writes it: lists grown lazily in a loop
  // ---------------------------------------------------------------------

  /** One more card raises the number of face lists to its own face count if that is larger. */
  lemma MaxFacesSnoc<T>(deck: seq<Card<T>>, c: Card<T>)
    ensures MaxFaces(deck + [c]) == Max(MaxFaces(deck), |c.faces|)
  {
    AppendSnoc(deck, [c]);
  }

  /** A card with no copies still opens the lists for its faces, and leaves them empty. */
  lemma ZeroCountOpensLists<T>(deck: seq<Card<T>>, faces: seq<T>)
    ensures |Columns(deck + [Card(0, faces)])| == Max(|Columns(deck)|, |faces|)
    ensures forall i :: |Columns(deck)| <= i < |Columns(deck + [Card(0, faces)])| ==>
              Columns(deck + [Card(0, faces)])[i] == []
  {
    var grown := deck + [Card(0, faces)];
    MaxFacesSnoc(deck, Card(0, faces));
    forall i | |Columns(deck)| <= i < |Columns(grown)| ensures Columns(grown)[i] == [] {
      FaceColumnBeyond(deck, i);
      AppendSnoc(deck, [Card(0, faces)]);
      assert FaceColumn(grown, i) == FaceColumn(deck, i) + (if i < |faces| then Repeat(faces[i], 0) else []);
    }
  }

  /** What one more card does to the face lists and to their number. */
  lemma ColumnsSnoc<T>(deck: seq<Card<T>>, c: Card<T>)
    ensures MaxFaces(deck + [c]) == Max(MaxFaces(deck), |c.faces|)
    ensures forall i: nat :: FaceColumn(deck + [c], i) ==
              FaceColumn(deck, i) + (if i < |c.faces| then Repeat(c.faces[i], c.count) else [])
  {
    assert DropLast(deck + [c]) == deck && Last(deck + [c]) == c;
  }

  lemma TraceThroughFailure<Img>(u: seq<Url>, a: seq<Url>, b: seq<Url>, c: seq<Url>, resolve: Url -> Fetch<Img>)
    requires u == a + b + c
    requires AllFetched(a, resolve) && !AllFetched(b, resolve)
    ensures Trace(u, resolve) == a + Trace(b, resolve)
  {
    assert u == a + (b + c);
    TraceAfterFetched(a, b + c, resolve);
    TraceAfterFailure(b, c, resolve);
  }

  /** A card whose faces fail after a run of resolving cards ends the calls inside that card. */
  lemma FailingCard<Img>(deck: seq<Card<Url>>, k: nat, resolve: Url -> Fetch<Img>)
    requires k < |deck|
    requires AllFetched(Faces(deck[..k]), resolve) && !AllFetched(deck[k].faces, resolve)
    ensures Trace(Faces(deck), resolve) == Faces(deck[..k]) + Trace(deck[k].faces, resolve)
  {
    FacesSplit(deck, k);
    TraceThroughFailure(Faces(deck), Faces(deck[..k]), deck[k].faces, Faces(deck[k + 1..]), resolve);
  }

  /** The first face that fails ends the calls for its card, and the card fails with it. */
  lemma FailingFace<Img>(faces: seq<Url>, j: nat, resolve: Url -> Fetch<Img>)
    requires j < |faces|
    requires AllFetched(faces[..j], resolve) && resolve(faces[j]).Unfetchable?
    ensures Trace(faces, resolve) == faces[..j + 1]
    ensures ResolveFaces(faces, resolve) == Failed(faces[j])
  {
    PrefixSnoc(faces, j);
    assert faces == faces[..j + 1] + faces[j + 1..];
    TraceStopsAtFailure(faces[..j + 1], faces[j + 1..], resolve);
    assert !AllFetched(faces, resolve);
  }

  /** A call whose last resolver request failed fails with that URL. */
  lemma FailingTraceFails<Img>(deck: seq<Card<Url>>, url: Url, resolve: Url -> Fetch<Img>)
    requires Trace(Faces(deck), resolve) != [] && Last(Trace(Faces(deck), resolve)) == url
    requires resolve(url).Unfetchable?
    ensures ResolveDeck(deck, resolve) == Failed(url)
  {
    var t := Trace(Faces(deck), resolve);
    assert Faces(deck)[|t| - 1] == url;
    assert !AllFetched(Faces(deck), resolve);
  }

  /** A card without faces leaves the face lists as they were. */
  lemma ColumnsFacelessCard<T>(deck: seq<Card<T>>, n: nat)
    ensures Columns(deck + [Card(n, [])]) == Columns(deck)
  {
    ColumnsSnoc(deck, Card(n, []));
    var after := Columns(deck + [Card(n, [])]);
    assert |after| == |Columns(deck)|;
    forall i | 0 <= i < |after| ensures after[i] == Columns(deck)[i] {
      assert FaceColumn(deck + [Card(n, [])], i) == FaceColumn(deck, i) + [];
    }
  }

  /**
   * One more face on the last card: open its list if no card has reached
   * that position yet, then append `n` copies of the face to that list.
   */
  lemma ColumnsAddFace<T>(deck: seq<Card<T>>, n: nat, faces: seq<T>, x: T, before: seq<seq<T>>)
    requires before == Columns(deck + [Card(n, faces)])
    ensures (var widened := if |faces| >= |before| then before + [[]] else before;
             |faces| < |widened| &&
             widened[|faces| := widened[|faces|] + Repeat(x, n)] == Columns(deck + [Card(n, faces + [x])]))
  {
    var after := Columns(deck + [Card(n, faces + [x])]);
    MaxFacesSnoc(deck, Card(n, faces));
    MaxFacesSnoc(deck, Card(n, faces + [x]));
    forall i | 0 <= i < |after|
      ensures after[i] == (if i < |before| then before[i] else []) + (if i == |faces| then Repeat(x, n) else [])
    {
      ColumnAddFace(deck, n, faces, x, i);
    }
    AppendAt(before, after, |faces|, Repeat(x, n));
  }

  /** List `i` after one more face on the last card, in terms of the lists before it. */
  lemma ColumnAddFace<T>(deck: seq<Card<T>>, n: nat, faces: seq<T>, x: T, i: nat)
    requires i < |Columns(deck + [Card(n, faces + [x])])|
    ensures (var before, after := Columns(deck + [Card(n, faces)]), Columns(deck + [Card(n, faces + [x])]);
             after[i] == (if i < |before| then before[i] else []) + (if i == |faces| then Repeat(x, n) else []))
  {
    var shorter := deck + [Card(n, faces)];
    FaceColumnAddFace(deck, n, faces, x, i);
    if i >= |Columns(shorter)| {
      FaceColumnBeyond(shorter, i);
    }
  }

  /**
   * Appending `extra` to list `j`, opening it first if it is the next list,
   * gives `after` when `after` is exactly that.
   */
  lemma AppendAt<T>(before: seq<seq<T>>, after: seq<seq<T>>, j: nat, extra: seq<T>)
    requires j <= |before|
    requires |after| == if j == |before| then |before| + 1 else |before|
    requires forall i :: 0 <= i < |after| ==>
               after[i] == (if i < |before| then before[i] else []) + (if i == j then extra else [])
    ensures (var widened := if j >= |before| then before + [[]] else before;
             j < |widened| && widened[j := widened[j] + extra] == after)
  {
    var widened := if j >= |before| then before + [[]] else before;
    var updated := widened[j := widened[j] + extra];
    forall i | 0 <= i < |after| ensures updated[i] == after[i] {
      if i < |before| {
        assert widened[i] == before[i];
      }
    }
  }

  /** One more face on the last card adds `n` copies of it to list `|faces|` and changes no other list. */
  lemma FaceColumnAddFace<T>(deck: seq<Card<T>>, n: nat, faces: seq<T>, x: T, i: nat)
    ensures FaceColumn(deck + [Card(n, faces + [x])], i) ==
              FaceColumn(deck + [Card(n, faces)], i) + (if i == |faces| then Repeat(x, n) else [])
  {
    AppendSnoc(deck, [Card(n, faces + [x])]);
    AppendSnoc(deck, [Card(n, faces)]);
    if i < |faces| {
      assert (faces + [x])[i] == faces[i];
    }
  }

  /**
   * The inner loop of the `separate` branch, for one card: for each face
   * `index`, open list `index` if no card has reached that position yet,
   * resolve the face once and append `count` copies of its image to list
   * `index`.
   */
  method AddCardFaces<Img>(lists: seq<seq<Img>>, card: Card<Url>, resolve: Url -> Fetch<Img>, ghost done: seq<Card<Img>>)
    returns (r: Outcome<seq<seq<Img>>>, calls: seq<Url>)
    requires lists == Columns(done)
    ensures calls == Trace(card.faces, resolve)
    ensures ResolveFaces(card.faces, resolve).Ok? ==>
              r == Ok(Columns(done + [Card(card.count, ResolveFaces(card.faces, resolve).value)]))
    ensures ResolveFaces(card.faces, resolve).Failed? ==> r == Failed(ResolveFaces(card.faces, resolve).url)
  {
    var grown := lists;
    calls := [];
    ghost var scans: seq<Img> := [];
    ColumnsFacelessCard(done, card.count);
    var index := 0;
    while index < |card.faces|
      invariant 0 <= index <= |card.faces|
      invariant ResolveFaces(card.faces[..index], resolve) == Ok(scans) && |scans| == index
      invariant grown == Columns(done + [Card(card.count, scans)])
      invariant calls == card.faces[..index] && AllFetched(calls, resolve)
    {
      ghost var before := grown;
      if index >= |grown| {
        grown := grown + [[]];
      }
      var url := card.faces[index];
      PrefixSnoc(card.faces, index);
      calls := calls + [url];
      match resolve(url) {
        case Unfetchable =>
          FailingFace(card.faces, index, resolve);
          r := Failed(url);
          return;
        case Fetched(img) =>
          ColumnsAddFace(done, card.count, scans, img, before);
          grown := grown[index := grown[index] + Repeat(img, card.count)];
          scans := scans + [img];
      }
      index := index + 1;
    }
    assert card.faces[..index] == card.faces;
    r := Ok(grown);
  }

  /**
   * The `separate` branch: the face lists grown card by card, in decklist
   * order, from no list at all.
   */
  method FetchSeparate<Img>(deck: seq<Card<Url>>, resolve: Url -> Fetch<Img>)
    returns (r: Outcome<seq<seq<Img>>>, calls: seq<Url>)
    ensures calls == Trace(Faces(deck), resolve)
    ensures ResolveDeck(deck, resolve).Ok? ==> r == Ok(Columns(ResolveDeck(deck, resolve).value))
    ensures ResolveDeck(deck, resolve).Failed? ==> r == Failed(ResolveDeck(deck, resolve).url)
  {
    var lists: seq<seq<Img>> := [];
    calls := [];
    ghost var done: seq<Card<Img>> := [];
    var k := 0;
    while k < |deck|
      invariant 0 <= k <= |deck|
      invariant ResolveDeck(deck[..k], resolve) == Ok(done)
      invariant lists == Columns(done)
      invariant calls == Faces(deck[..k]) && AllFetched(calls, resolve)
    {
      var card := deck[k];
      PrefixSnoc(deck, k);
      var step, made := AddCardFaces(lists, card, resolve, done);
      AllFetchedAppend(calls, card.faces, resolve);
      if step.Failed? {
        FailingCard(deck, k, resolve);
        calls := calls + made;
        FailingTraceFails(deck, step.url, resolve);
        r := Failed(step.url);
        return;
      }
      lists := step.value;
      calls := calls + made;
      done := done + [Card(card.count, ResolveFaces(card.faces, resolve).value)];
      k := k + 1;
    }
    assert deck[..k] == deck;
    r := Ok(lists);
  }

  /**
   * `fetch_scans_scryfall`: the separate-mode lists, or exactly one combined
   * list; `calls` is the sequence of URLs handed to the resolver.
   */
  method FetchScans<Img>(deck: seq<Card<Url>>, separate: bool, resolve: Url -> Fetch<Img>)
    returns (r: Outcome<seq<seq<Img>>>, calls: seq<Url>)
    ensures calls == Trace(Faces(deck), resolve)
    ensures r.Ok? <==> AllFetched(Faces(deck), resolve)
    ensures r.Ok? ==> calls == Faces(deck)
    ensures r.Failed? ==> calls != [] && r.url == Last(calls) && resolve(r.url).Unfetchable?
    ensures r.Ok? && separate ==> r.value == Columns(ResolveDeck(deck, resolve).value)
    ensures r.Ok? && !separate ==> r.value == [Flatten(ResolveDeck(deck, resolve).value)]
  {
    if separate {
      r, calls := FetchSeparate(deck, resolve);
    } else {
      var run := Combined(deck, resolve);
      CombinedResolvesThenFlattens(deck, resolve);
      calls := run.calls;
      match run.outcome {
        case Ok(s) => r := Ok([s]);
        case Failed(u) => r := Failed(u);
      }
    }
  }

  // ---------------------------------------------------------------------
  // Properties of the combined list
  // ---------------------------------------------------------------------

  lemma {:induction false} BlocksLength<T>(faces: seq<T>, n: nat)
    ensures |Blocks(faces, n)| == n * |faces|
    decreases |faces|
  {
    if faces != [] {
      BlocksLength(DropLast(faces), n);
      assert n * (|faces| - 1) + n == n * |faces|;
    }
  }

  /** The combined list has one entry per copy of every face. */
  lemma {:induction false} FlattenLength<T>(deck: seq<Card<T>>)
    ensures |Flatten(deck)| == Total(deck)
    decreases |deck|
  {
    if deck != [] {
      FlattenLength(DropLast(deck));
      BlocksLength(Last(deck).faces, Last(deck).count);
    }
  }

  lemma {:induction false} FlattenAppend<T>(a: seq<Card<T>>, b: seq<Card<T>>)
    ensures Flatten(a + b) == Flatten(a) + Flatten(b)
    decreases |b|
  {
    if b == [] {
      assert a + b == a;
    } else {
      var front, c := DropLast(b), Last(b);
      AppendSnoc(a, b);
      FlattenAppend(a, front);
      calc {
        Flatten(a + b);
        Flatten(a + front) + Blocks(c.faces, c.count);
        (Flatten(a) + Flatten(front)) + Blocks(c.faces, c.count);
        Flatten(a) + (Flatten(front) + Blocks(c.faces, c.count));
        Flatten(a) + Flatten(b);
      }
    }
  }

  /**
   * Card `i` contributes one contiguous block, its faces repeated, between
   * the entries of the cards before it and those of the cards after it.
   */
  lemma FlattenSplit<T>(deck: seq<Card<T>>, i: nat)
    requires i < |deck|
    ensures Flatten(deck) == Flatten(deck[..i]) + Blocks(deck[i].faces, deck[i].count) + Flatten(deck[i + 1..])
  {
    var pre, c, post := deck[..i], deck[i], deck[i + 1..];
    SplitAt(deck, i);
    FlattenAppend(pre + [c], post);
    FlattenAppend(pre, [c]);
    assert Flatten([c]) == Blocks(c.faces, c.count);
  }

  /**
   * Every entry of an earlier card comes before every entry of a later one:
   * card `a`'s block ends no later than card `b`'s block starts.
   */
  lemma CardsInDecklistOrder<T>(deck: seq<Card<T>>, a: nat, b: nat)
    requires a < b < |deck|
    ensures |Flatten(deck[..a])| + |Blocks(deck[a].faces, deck[a].count)| <= |Flatten(deck[..b])|
  {
    assert deck[..b] == deck[..a] + [deck[a]] + deck[a + 1..b];
    FlattenAppend(deck[..a] + [deck[a]], deck[a + 1..b]);
    FlattenAppend(deck[..a], [deck[a]]);
    assert DropLast([deck[a]]) == [];
  }

  lemma {:induction false} BlocksAppend<T>(a: seq<T>, b: seq<T>, n: nat)
    ensures Blocks(a + b, n) == Blocks(a, n) + Blocks(b, n)
    decreases |b|
  {
    if b == [] {
      assert a + b == a;
    } else {
      var front, x := DropLast(b), Last(b);
      AppendSnoc(a, b);
      BlocksAppend(a, front, n);
      calc {
        Blocks(a + b, n);
        Blocks(a + front, n) + Repeat(x, n);
        (Blocks(a, n) + Blocks(front, n)) + Repeat(x, n);
        Blocks(a, n) + (Blocks(front, n) + Repeat(x, n));
        Blocks(a, n) + Blocks(b, n);
      }
    }
  }

  /**
   * Within a card's block, face `j` occupies positions `j * n` to
   * `(j + 1) * n`, all of them one and the same image.
   */
  lemma BlocksSplit<T>(faces: seq<T>, n: nat, j: nat)
    requires j < |faces|
    ensures Blocks(faces, n) == Blocks(faces[..j], n) + Repeat(faces[j], n) + Blocks(faces[j + 1..], n)
    ensures |Blocks(faces[..j], n)| == j * n
  {
    var pre, x, post := faces[..j], faces[j], faces[j + 1..];
    SplitAt(faces, j);
    BlocksAppend(pre + [x], post, n);
    BlocksAppend(pre, [x], n);
    assert Blocks([x], n) == Repeat(x, n);
    BlocksLength(faces[..j], n);
  }

  // ---------------------------------------------------------------------
  // Properties of the separate-mode lists
  // ---------------------------------------------------------------------

  lemma {:induction false} FaceColumnAppend<T>(a: seq<Card<T>>, b: seq<Card<T>>, i: nat)
    ensures FaceColumn(a + b, i) == FaceColumn(a, i) + FaceColumn(b, i)
    decreases |b|
  {
    if b == [] {
      assert a + b == a;
    } else {
      AppendSnoc(a, b);
      FaceColumnAppend(a, DropLast(b), i);
      var tail := if i < |Last(b).faces| then Repeat(Last(b).faces[i], Last(b).count) else [];
      calc {
        FaceColumn(a + b, i);
        FaceColumn(a + DropLast(b), i) + tail;
        FaceColumn(a, i) + FaceColumn(DropLast(b), i) + tail;
      }
    }
  }

  /**
   * List `i` holds, in decklist order, the copies of face `i` of each card
   * that has such a face, and nothing for a card that has not.
   */
  lemma FaceColumnSplit<T>(deck: seq<Card<T>>, c: nat, i: nat)
    requires c < |deck|
    ensures FaceColumn(deck, i) ==
              FaceColumn(deck[..c], i)
              + (if i < |deck[c].faces| then Repeat(deck[c].faces[i], deck[c].count) else [])
              + FaceColumn(deck[c + 1..], i)
  {
    var pre, card, post := deck[..c], deck[c], deck[c + 1..];
    SplitAt(deck, c);
    FaceColumnAppend(pre + [card], post, i);
    FaceColumnAppend(pre, [card], i);
    assert FaceColumn([card], i) == if i < |card.faces| then Repeat(card.faces[i], card.count) else [];
  }

  /** No padding and no placeholder: every entry of list `i` is face `i` of some card. */
  lemma {:induction false} ColumnEntryIsFace<T>(deck: seq<Card<T>>, i: nat, k: nat)
    requires k < |FaceColumn(deck, i)|
    ensures exists c :: 0 <= c < |deck| && i < |deck[c].faces| && FaceColumn(deck, i)[k] == deck[c].faces[i]
    decreases |deck|
  {
    var front := FaceColumn(DropLast(deck), i);
    if k < |front| {
      ColumnEntryIsFace(DropLast(deck), i, k);
      var c :| 0 <= c < |DropLast(deck)| && i < |DropLast(deck)[c].faces| && front[k] == DropLast(deck)[c].faces[i];
      assert deck[c] == DropLast(deck)[c];
    } else {
      assert FaceColumn(deck, i)[k] == Last(deck).faces[i];
    }
  }

  /** Later face lists are never longer: a card with face `i + 1` also has face `i`. */
  lemma {:induction false} ColumnsShrink<T>(deck: seq<Card<T>>, i: nat)
    ensures |FaceColumn(deck, i + 1)| <= |FaceColumn(deck, i)|
    decreases |deck|
  {
    if deck != [] {
      ColumnsShrink(DropLast(deck), i);
    }
  }

  /** The number of entries of face list `i`: the copy counts of the cards that have a face `i`. */
  function Width<T>(deck: seq<Card<T>>, i: nat): nat {
    if deck == [] then 0
    else Width(DropLast(deck), i) + (if i < |Last(deck).faces| then Last(deck).count else 0)
  }

  lemma {:induction false} FaceColumnWidth<T>(deck: seq<Card<T>>, i: nat)
    ensures |FaceColumn(deck, i)| == Width(deck, i)
    decreases |deck|
  {
    if deck != [] {
      FaceColumnWidth(DropLast(deck), i);
    }
  }

  /** The number of entries of face lists 0 to m - 1. */
  function WidthSum<T>(deck: seq<Card<T>>, m: nat): nat {
    if m == 0 then 0 else WidthSum(deck, m - 1) + Width(deck, m - 1)
  }

  /** What card `c` adds to face lists 0 to m - 1: its copy count for each face it has below m. */
  function Span<T>(c: Card<T>, m: nat): nat {
    if m == 0 then 0 else Span(c, m - 1) + (if m - 1 < |c.faces| then c.count else 0)
  }

  /** Below its face count a card adds its copy count per list; from there on, nothing. */
  lemma {:induction false} SpanIsProduct<T>(c: Card<T>, m: nat)
    ensures Span(c, m) == c.count * Min(m, |c.faces|)
  {
    if m > 0 {
      SpanIsProduct(c, m - 1);
      MinStep(c.count, m, |c.faces|);
    }
  }

  lemma MinStep(n: nat, m: nat, f: nat)
    requires m > 0
    ensures n * Min(m, f) == n * Min(m - 1, f) + (if m - 1 < f then n else 0)
  {
    if m - 1 < f {
      assert n * m == n * (m - 1) + n;
    }
  }

  /** One more card adds its span to face lists 0 to m - 1. */
  lemma {:induction false} WidthSumSnoc<T>(deck: seq<Card<T>>, m: nat)
    requires deck != []
    ensures WidthSum(deck, m) == WidthSum(DropLast(deck), m) + Span(Last(deck), m)
  {
    if m > 0 {
      WidthSumSnoc(deck, m - 1);
    }
  }

  /** No list beyond the largest face count has an entry. */
  lemma {:induction false} WidthBeyond<T>(deck: seq<Card<T>>, i: nat)
    requires MaxFaces(deck) <= i
    ensures Width(deck, i) == 0
    decreases |deck|
  {
    if deck != [] {
      WidthBeyond(DropLast(deck), i);
    }
  }

  lemma {:induction false} WidthSumBeyond<T>(deck: seq<Card<T>>, m: nat)
    requires MaxFaces(deck) <= m
    ensures WidthSum(deck, m) == WidthSum(deck, MaxFaces(deck))
  {
    if m > MaxFaces(deck) {
      WidthSumBeyond(deck, m - 1);
      WidthBeyond(deck, m - 1);
    }
  }

  lemma {:induction false} WidthSumTotal<T>(deck: seq<Card<T>>)
    ensures WidthSum(deck, MaxFaces(deck)) == Total(deck)
    decreases |deck|
  {
    if deck != [] {
      var front, c, mf := DropLast(deck), Last(deck), MaxFaces(deck);
      WidthSumTotal(front);
      WidthSumSnoc(deck, mf);
      WidthSumBeyond(front, mf);
      SpanIsProduct(c, mf);
      assert Min(mf, |c.faces|) == |c.faces|;
    }
  }

  lemma {:induction false} SumLengthsOfColumns<T>(deck: seq<Card<T>>, lists: seq<seq<T>>)
    requires forall i :: 0 <= i < |lists| ==> lists[i] == FaceColumn(deck, i)
    ensures SumLengths(lists) == WidthSum(deck, |lists|)
    decreases |lists|
  {
    if lists != [] {
      SumLengthsOfColumns(deck, DropLast(lists));
      FaceColumnWidth(deck, |lists| - 1);
    }
  }

  /** Separate mode prints exactly as many images as combined mode. */
  lemma ColumnsTotal<T>(deck: seq<Card<T>>)
    ensures SumLengths(Columns(deck)) == |Flatten(deck)|
  {
    SumLengthsOfColumns(deck, Columns(deck));
    WidthSumTotal(deck);
    FlattenLength(deck);
  }

  lemma {:induction false} SingleFaceColumn<T>(deck: seq<Card<T>>)
    requires forall c :: 0 <= c < |deck| ==> |deck[c].faces| == 1
    ensures FaceColumn(deck, 0) == Flatten(deck)
    decreases |deck|
  {
    if deck != [] {
      SingleFaceColumn(DropLast(deck));
      var c := Last(deck);
      assert DropLast(c.faces) == [];
      assert Blocks(c.faces, c.count) == Repeat(c.faces[0], c.count);
    }
  }

  /** When every card has exactly one face, separate mode yields the combined list. */
  lemma SingleFaceSeparateIsCombined<T>(deck: seq<Card<T>>)
    requires deck != []
    requires forall c :: 0 <= c < |deck| ==> |deck[c].faces| == 1
    ensures Columns(deck) == [Flatten(deck)]
  {
    SingleFaceColumn(deck);
    assert MaxFaces(deck) == 1;
    assert Columns(deck)[0] == FaceColumn(deck, 0);
  }

  /** For an empty decklist the two modes differ: no list at all against one empty list. */
  lemma EmptyDeckModes<T>(deck: seq<Card<T>>)
    requires deck == []
    ensures Columns(deck) == [] && [Flatten(deck)] == [[]]
  {
  }
}
