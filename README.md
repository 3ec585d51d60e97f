# mtg-proxies: scan expansion and output naming, in Dafny

This project models two parts of mtg-proxies, a tool that prints proxy
sheets of Magic: The Gathering decklists.

- **Scan expansion** (`fetch_scans_scryfall`). A decklist becomes the
  ordered lists of card images to print:
  - **Combined mode** gives exactly one list. It holds every face of every
    card, in decklist and face order, with each image repeated once per copy.
  - **Separate mode** gives one list per face position. List `i` holds the
    copies of face `i` of every card that has one.
- **Output naming** (`get_file_name`) and the loop in `print.py` that uses
  it. Each list gets a file name and a renderer: the PDF writer for
  `.pdf` files, matplotlib otherwise.

Modules:

- `Scans` (`scans.dfy`). A card is `Card(count, faces)`.
  - **The resolver.** `scryfall.get_image` is a function parameter
    `resolve: Url -> Fetch<Img>`. It returns either an image or
    `Unfetchable`, and a failure aborts the whole call.
  - **The specification functions** (`Faces`, `Flatten`, `Columns`,
    `MaxFaces`, `FaceColumn`, `Total`) state each mode's result on a deck
    whose images are already known. `ResolveDeck` resolves a deck's faces,
    and `Trace` lists the resolver calls made.
  - **Separate mode** is the imperative method `FetchSeparate`, with the
    inner loop in `AddCardFaces`. Its lists grow lazily: a list is opened
    the first time a face position is reached. It is proved equal to
    `Columns` of the resolved deck.
  - **Combined mode** is the recursive function `Combined`, which resolves
    each face inside the expansion, as the comprehension does. It is proved
    equal to resolving first and then flattening.
  - **Entry point.** `FetchScans` chooses between the modes. It also returns
    the log of URLs handed to the resolver, as `FetchSeparate` and
    `Combined` record it. In both modes that log is proved equal to `Trace`.
- `OutputFiles` (`output_files.dfy`).
  - `GetFileName` models `str.rsplit('.', 1)` followed by
    `"{0}_{2}.{1}".format`. A missing `{2}` argument raises `IndexError`.
  - `PlanOutputs` is the output loop. It returns one job (sequence number,
    path, renderer) per list. It stops at the first `IndexError`.
- `Decimal` (`decimal.dfy`). `str(int)`, used for the index in a derived
  file name, together with its parser and a round-trip proof.

Take a base path without a '.' and two or more lists. The loop at
print.py:80-83 renders list 0 under the base path. It then calls
`get_file_name(2, …)`, which raises `IndexError`. `PlanOutputs` returns
that one job with `ok == false`.

For an empty decklist, separate mode returns no list and combined mode
returns one empty list. So `SingleFaceSeparateIsCombined` requires a
non-empty decklist, and `EmptyDeckModes` states the empty case.

## Model

| member | source | states |
|---|---|---|
| Scans.FetchScans | mtgproxies/scans.py:9-32 | The returned log is the calls `Combined` or `FetchSeparate` made. It is the decklist's face URLs in order, up to the first failure. The result is Ok exactly when every face resolves. On success every face URL was requested once. On failure the error names the last URL requested, which is the failing one. In separate mode the value is the face lists of the resolved deck; in combined mode it is exactly one list, the flattened resolved deck. |
| Scans.FetchSeparate | mtgproxies/scans.py:18-25 | The separate-mode loop makes the resolver calls of `Trace`. It returns `Columns` of the resolved deck, or fails with the URL where resolution first fails. |
| Scans.AddCardFaces | mtgproxies/scans.py:21-24 | For one card, the inner loop opens list `index` when it is missing, resolves the face once and appends `count` copies. This turns the lists of the cards before it into the lists of the deck that includes it. It asks the resolver for the card's faces up to the first failure. |
| Scans.Repeat | mtgproxies/scans.py:24 | `[x] * n` has length `n` and every entry is `x`: the copies are one and the same image. |
| Scans.MaxFaces | mtgproxies/scans.py:21-23 | The number of separate-mode lists is at least every card's face count. Some card has exactly that many faces. It is 0 for an empty decklist. |
| Scans.FaceColumnBeyond | mtgproxies/scans.py:21-24 | No list beyond the largest face count receives an image. |
| Scans.Trace | mtgproxies/scans.py:20-24 | The calls made are a prefix of the requested URLs. Every call but the last succeeded. All URLs are requested when all resolve. Otherwise the last call is the one that failed. |
| Scans.ResolveFaces | mtgproxies/scans.py:21-24 | Resolving a card's faces succeeds exactly when each face resolves. It then yields the resolver's image for each face in order; otherwise its error is the last URL requested. |
| Scans.ResolveDeck | mtgproxies/scans.py:20-24 | Resolving a deck succeeds exactly when every face resolves. It keeps each card's count and resolves each face in place; otherwise its error is the last URL requested. |
| Scans.AllFetchedAppend | mtgproxies/scans.py:20-24 | A run of URLs all resolve exactly when both of its parts do. |
| Scans.TraceAfterFailure | mtgproxies/scans.py:20-24 | Once a URL has failed, no later URL is requested. |
| Scans.TraceAfterFetched | mtgproxies/scans.py:20-24 | When every URL of a first part resolves, the calls continue into the rest. |
| Scans.TraceStopsAtFailure | mtgproxies/scans.py:20-24 | A failing URL after URLs that all resolved is the last call made. |
| Scans.TraceThroughFailure | mtgproxies/scans.py:20-24 | Calls made over resolving URLs, then a failing part, then anything, are the resolving URLs followed by the calls into the failing part. |
| Scans.FailingCard | mtgproxies/scans.py:20-24 | When a card's faces fail after all earlier cards resolved, the calls end inside that card. |
| Scans.FailingFace | mtgproxies/scans.py:21-24 | The first failing face is the last call for its card, and the card fails with that URL. |
| Scans.FailingTraceFails | mtgproxies/scans.py:20-24 | When the last call made failed, resolving the deck fails with that URL. |
| Scans.FacesAppend | mtgproxies/scans.py:20-21 | The faces of two decklists joined are the faces of the first, then those of the second. |
| Scans.FacesSplit | mtgproxies/scans.py:20-21 | In the request order, card `i`'s faces sit, as one run, between the faces of the earlier and of the later cards, whatever its count. |
| Scans.CombinedCard | mtgproxies/scans.py:30-31 | The resolver is asked for each face of the card once, in face order and whatever the count, up to the first failure. The card's part is Ok exactly when all its faces resolve. A failure names the last URL asked. |
| Scans.Combined | mtgproxies/scans.py:27-32 | The comprehension asks the resolver for every face of the decklist in order, up to the first failure: its calls are `Trace(Faces(deck))`. It is Ok exactly when every face resolves. A failure names the last URL asked. |
| Scans.CombinedCardResolvesThenBlocks | mtgproxies/scans.py:30-31 | One card's part of the comprehension is its resolved faces, each repeated `count` times, or the same failure. |
| Scans.CombinedResolvesThenFlattens | mtgproxies/scans.py:27-32 | Resolving inside the comprehension equals resolving every face first and then flattening. The result has the same images in the same order, or the same first failing URL. |
| Scans.BlocksLength | mtgproxies/scans.py:30-31 | A card's block has `count * |faces|` entries. |
| Scans.FlattenLength | mtgproxies/scans.py:27-32 | The combined list has, summed over the cards, `count * |faces|` entries. |
| Scans.FlattenAppend | mtgproxies/scans.py:28-31 | Flattening two decklists joined gives the two combined lists one after the other. |
| Scans.FlattenSplit | mtgproxies/scans.py:28-31 | Card `i` gives one contiguous block of the combined list. The block sits between the entries of the earlier and of the later cards. |
| Scans.CardsInDecklistOrder | mtgproxies/scans.py:28-31 | Every entry of an earlier card comes before every entry of a later card. |
| Scans.BlocksAppend | mtgproxies/scans.py:30-31 | The block of two face lists joined is the two blocks one after the other. |
| Scans.BlocksSplit | mtgproxies/scans.py:30-31 | Within a card's block, face `j` takes positions `j * count` to `(j + 1) * count`. All of those positions hold that face's image. |
| Scans.MaxFacesSnoc | mtgproxies/scans.py:22-23 | One more card raises the number of lists to its face count if that is larger. |
| Scans.ZeroCountOpensLists | mtgproxies/scans.py:21-24 | A card with count 0 still opens the lists for its faces, and leaves them empty. |
| Scans.ColumnsSnoc | mtgproxies/scans.py:21-24 | One more card appends `count` copies of its face `i` to list `i` and changes no other list. |
| Scans.ColumnsFacelessCard | mtgproxies/scans.py:21 | A card without faces leaves the lists as they were. |
| Scans.ColumnsAddFace | mtgproxies/scans.py:22-24 | One loop step (open list `index` if missing, then extend it by `count` copies) gives the lists with one more face on the current card. |
| Scans.ColumnAddFace | mtgproxies/scans.py:22-24 | After one more face on the current card, each list is the old list (or a new empty one), plus `count` copies in list `index` only. |
| Scans.FaceColumnAddFace | mtgproxies/scans.py:24 | One more face adds its copies to list `index` and to no other list. |
| Scans.AppendAt | mtgproxies/scans.py:22-24 | `append([])` when `index` is not yet a list, followed by `extend` on list `index`, gives exactly the expected lists. |
| Scans.FaceColumnAppend | mtgproxies/scans.py:20-24 | List `i` of two decklists joined is list `i` of the first, then list `i` of the second. |
| Scans.FaceColumnSplit | mtgproxies/scans.py:21-24 | List `i` is, in decklist order, `count` copies of face `i` of each card that has one. A card without face `i` adds nothing. |
| Scans.ColumnEntryIsFace | mtgproxies/scans.py:21-24 | There is no padding and no placeholder: every entry of list `i` is face `i` of some card. |
| Scans.ColumnsShrink | mtgproxies/scans.py:21-24 | Later lists are never longer: `|list i+1| <= |list i|`. |
| Scans.FaceColumnWidth | mtgproxies/scans.py:24 | The length of list `i` is the sum of the counts of the cards that have a face `i`. |
| Scans.SpanIsProduct | mtgproxies/scans.py:24 | Over lists `0 .. m-1` a card contributes `count * min(m, |faces|)` entries. |
| Scans.WidthSumSnoc | mtgproxies/scans.py:21-24 | Over lists `0 .. m-1` one more card adds its contribution to the total length. |
| Scans.WidthBeyond | mtgproxies/scans.py:21-24 | A list index beyond the largest face count has length 0. |
| Scans.WidthSumBeyond | mtgproxies/scans.py:21-24 | Counting beyond the last list adds nothing. |
| Scans.WidthSumTotal | mtgproxies/scans.py:19-25 | The separate-mode lists hold, summed over the cards, `count * |faces|` entries. |
| Scans.SumLengthsOfColumns | mtgproxies/scans.py:19-25 | The summed lengths of lists `FaceColumn(deck, 0)` to `FaceColumn(deck, m-1)` equal `WidthSum(deck, m)`, the counts of the cards having each of those faces. |
| Scans.ColumnsTotal | mtgproxies/scans.py:19-32 | Separate mode prints exactly as many images as combined mode. |
| Scans.SingleFaceColumn | mtgproxies/scans.py:18-32 | When every card has one face, list 0 is the combined list. |
| Scans.SingleFaceSeparateIsCombined | mtgproxies/scans.py:18-32 | When every card of a non-empty decklist has exactly one face, the separate-mode lists are exactly the one combined list. |
| Scans.EmptyDeckModes | mtgproxies/scans.py:18-32 | An empty decklist gives no list in separate mode and one empty list in combined mode. |
| OutputFiles.RSplitDot | print.py:22 | `rsplit('.', 1)` gives the whole path when it has no '.'. Otherwise it gives two parts, joined by that '.', with no '.' in the second. |
| OutputFiles.Format | print.py:22 | `"{0}_{2}.{1}".format` raises `IndexError` exactly when fewer than three arguments are given. |
| OutputFiles.FormatShape | print.py:22 | A formatted name starts with argument 0 and ends with "." and argument 1. |
| OutputFiles.GetFileName | print.py:18-22 | Index 1 returns the path unchanged. Any other index fails with `IndexError` exactly when the path has no '.'. |
| OutputFiles.RSplitDotOf | print.py:22 | The split is at the last '.': `stem + "." + ext` with no '.' in `ext` splits into `stem` and `ext`. |
| OutputFiles.SplitAtLastDot | print.py:22 | A path splits into a stem and a dot-free extension in one way only. |
| OutputFiles.DerivedName | print.py:22 | For index other than 1, `stem.ext` becomes `stem_<index>.ext`. Earlier dots stay in the stem. |
| OutputFiles.DerivedNameLength | print.py:22 | A path with a dot-free extension always gets a name. Derived names are longer by the index text plus one. |
| OutputFiles.NameCancel | print.py:22 | A derived name determines the index text inserted into it. |
| OutputFiles.DotSuffix | print.py:83 | `x.ext` ends with `.e` for a dot-free `e` exactly when `e` is its extension. |
| OutputFiles.ExtensionKept | print.py:22 | A derived name ends with `.e` exactly when the base path does. |
| OutputFiles.OutputPath | print.py:81 | List 0 keeps the base path. Every later list fails with `IndexError` exactly when the base path has no '.'. |
| OutputFiles.RendererFor | print.py:83 | A path without '.' goes to matplotlib. Otherwise the PDF writer is chosen exactly when the extension is "pdf". |
| OutputFiles.PdfByExtension | print.py:83 | `endswith(".pdf")` holds exactly when the path has a '.' and its extension after the last '.' is "pdf". |
| OutputFiles.RendererStable | print.py:80-83 | Every output file goes to the same renderer as the base path. |
| OutputFiles.NamesDistinct | print.py:18-22 | For a path with a '.', different indices give different file names, so no output overwrites another. |
| OutputFiles.DeckPdfNames | print.py:80-81 | `deck.pdf` stays `deck.pdf` for list 0, and list 1 goes to `deck_2.pdf`. |
| OutputFiles.DeckPdfThirdName | print.py:80-81 | List 2 of `deck.pdf` goes to `deck_3.pdf`. |
| OutputFiles.NamedInOrderExtend | print.py:80-83 | A job for the next list, under its derived name and the base path's renderer, keeps the jobs in order. |
| OutputFiles.DistinctPathsExtend | print.py:80-83 | A job under a new name keeps every file name different. |
| OutputFiles.PlanOutputs | print.py:80-83 | The loop succeeds exactly when there is at most one list or the base path has a '.'. Otherwise it stops after one job. Job `k` has sequence `k` and the name `get_file_name(k + 1, base)`. Every job uses the base path's renderer. No two jobs share a file. |
| Decimal.NatToString | print.py:22 | `str(n)` is non-empty, all digits, without a leading zero. |
| Decimal.IntToString | print.py:22 | `str(i)` starts with '-' exactly for negative `i`, and never contains a '.'. |
| Decimal.ParseNatToString | print.py:22 | Reading the digits of `str(n)` back gives `n`. |
| Decimal.ParseIntToString | print.py:22 | Reading `str(i)` back gives `i`: the rendering loses nothing. |
| Decimal.IntToStringInjective | print.py:22 | Different integers have different decimal texts. |

## Left out

- `scryfall.get_image` (mtgproxies/scans.py:24, 31) is a parameter. Its network access, caching and the `silent` flag are foreign I/O. Only what each URL resolves to is modelled: an image or a failure.
- Python exceptions are modelled as the `Failed(url)` outcome. The exception's type and message are not modelled.
- The `tqdm` progress wrapper (mtgproxies/scans.py:20, 29) is user-interface only and returns the decklist unchanged.
- The `image_uri["png"]` lookup is left out. A face is given by its "png" URL, so a face without one (a `KeyError`) cannot occur in the model.
- Negative copy counts are left out. Counts are `nat`: the input decklist is assumed to have non-negative counts. Python's `[x] * -1 == []` is not modelled.
- Object identity is not modelled: images are values. "The `count` copies are one handle" is stated as equal entries (`Repeat`).
- `papersize`, the argparse setup and `print(args)` (print.py:9-72) are command-line plumbing with floating point. `parse_decklist_spec` and the `Decklist` class are not part of this model; the input is a `seq<Card<Url>>`.
- `print_cards_fpdf`, `print_cards_matplotlib` and the colour conversion (print.py:84-108) are rendering with foreign libraries. `PlanOutputs` records only which renderer gets which file.
- Running the orchestration twice gives the same result, because the model is a function of the decklist and the resolver. No separate idempotence lemma is stated.
