# Image-search scraper: control logic of one class run

This project models the control logic of `scrape_class_images` in
`main.py`, the function that builds one class of an image dataset from a
search-results page. A class run has four phases:

1. Wait for the results page. If it does not load in time, the run returns
   at once: no URL is collected and nothing is downloaded.
2. Scroll to the bottom again and again until the document height stops
   changing.
3. Click every thumbnail and collect the `src` of the full-size image into a
   set. Only non-empty `http://` and `https://` addresses are kept. A
   thumbnail that raises is skipped. Collection stops once the set holds
   `num_images_to_fetch` URLs.
4. Try the collected URLs one by one. The k-th success is saved as
   `f"{k:04d}.jpg"`. The loop stops as soon as `num_images_needed` images are
   saved, and a warning is printed if fewer were saved.

The browser, the network and image decoding are inputs of the model:

- the page wait is a `PageLoad` value;
- the scroll phase sees a finite sequence of observed heights;
- the thumbnails are a sequence of `Thumb` outcomes (`Failed` or `Src` of an
  optional string);
- `download_image` is an oracle `ok: string -> bool`;
- Python's iteration order over the URL set is an arbitrary enumeration,
  chosen by `Enumerate` with `:|`, so every property holds for every order.

Modules: `FileNames` (the saved-file name), `Scroll`, `Collection`,
`Downloads` (the three loops), `Scrape` (the whole run), and `Wrappers`
(`Option`).

Each loop is a method that follows the source's loop step by step. The
collection and download loops keep the source's `break`. The scroll loop
reads a finite sequence of heights and leaves with `return` at the first
repeat, where the source's `while True` breaks. Each method's postconditions tie it to an independent recursive reference definition:

- `StableAt` for the scroll loop;
- `Accepted`, the set after handling a prefix of the thumbnails with `Handle`
  (the body of the source loop). `PrefixFromSources` describes it without
  the loop: it is exactly the acceptable sources of those thumbnails;
- `Successes`, the URLs whose download succeeds, in order.

Lemmas about those definitions state the properties that relate several
steps.

## Model

| member | source | states |
|---|---|---|
| Scroll.ScrollUntilStable | main.py:83-92 | The loop stops at the first read equal to the previous height, counting the initial read; every earlier read differed from its predecessor; the settled height is that repeated value; it keeps scrolling exactly when no observed read repeats |
| Collection.Handle | main.py:118-121 | Handling one thumbnail never removes a URL, adds at most one, and adds only a non-empty http/https `src` of that thumbnail |
| Collection.CollectUrls | main.py:98-134 | The set is `Accepted` of the visited thumbnails; it never exceeds `num_images_to_fetch` and holds only web URLs; it stops before the end only when full; every earlier size test passed, so it never stopped early; if it ends below the limit, every acceptable source was collected |
| Collection.FailureAddsNothing | main.py:128-134 | A thumbnail that raises leaves the set unchanged |
| Collection.FailureIsSkipped | main.py:128-134 | A failing thumbnail anywhere does not change what the thumbnails after it contribute |
| Collection.DuplicateAddsNothing | main.py:98-121 | Finding a URL already in the set leaves the set unchanged (deduplication) |
| Collection.AcceptedGrows | main.py:98-121 | The collected set only grows as more thumbnails are handled |
| Collection.PrefixFromSources | main.py:99-121 | After handling the first n thumbnails, the set holds exactly the non-empty http/https sources among them (so, with CollectUrls, the collected set is exactly the acceptable sources of the visited thumbnails) |
| Collection.AcceptedFromSources | main.py:118-121 | A URL is collected exactly when some thumbnail's `src` is that URL and it is a non-empty http/https address |
| Downloads.Successes | main.py:152-154 | Reference definition: the URLs whose download succeeds, in attempt order; never more than the attempts |
| Downloads.SuccessesMembers | main.py:152-154 | A URL is among the successes exactly when it is a candidate and its download succeeds |
| Downloads.SuccessesStep | main.py:152-154 | A failed download adds nothing; a success adds exactly that URL |
| Downloads.SuccessesOfPrefix | main.py:144-154 | The successes among the first i attempts are a prefix of the successes among all candidates |
| Downloads.DownloadAll | main.py:141-165 | The k-th saved file is the k-th success, named `FileName(k)`; the saved count is min(`num_images_needed`, number of successful candidates); it stops before a candidate only at the target; it made no attempt after reaching it; shortfall holds exactly when the count is below the target, and only after every candidate was tried |
| Downloads.SavedNamesDistinct | main.py:149-154 | Saved files have pairwise distinct names |
| FileNames.FileNameRoundTrip | main.py:149 | The name is digits followed by ".jpg", and the digits read back as the index |
| FileNames.FileNameInjective | main.py:149 | Different indices give different file names |
| FileNames.FileNameLength | main.py:149 | Below 10000 the name has four digits; from 10000 on it has more, since the zero padding never truncates |
| FileNames.FileNameExamples | main.py:149 | 0, 4, 999 and 12345 give "0000.jpg", "0004.jpg", "0999.jpg" and "12345.jpg" |
| Scrape.Enumerate | main.py:144 | Iterating the URL set visits each element exactly once |
| Scrape.ScrapeClass | main.py:58-165 | On a page-load timeout nothing is collected or downloaded. Once scrolling settles, the phases compose as follows. Collection: the set is exactly what the first `visited` thumbnails contribute; it stopped early only when full and never before the first full prefix; it stays within the fetch limit and holds only web URLs. Download: saved files are the successes among the attempted URLs, numbered from 0; the loop stops before a URL only at the target and made no attempt after reaching it; the count is min(needed, successes). Shortfall holds exactly when fewer than needed were saved, and only after every URL was tried |

## Left out

- Browser setup, navigation, `execute_script`, clicks, key presses and explicit waits (main.py:62-75, 83-95, 104-126, 136). Their effects enter as `PageLoad`, the observed heights and the `Thumb` outcomes.
- `download_image` internals (main.py:37-56): the HTTP GET with headers and timeout, the OpenCV decode and the write. It is the oracle `ok`. The oracle depends only on the URL. A set never yields a URL twice, so a URL-keyed oracle loses nothing.
- Building the save path with `os.path.join` (main.py:150). The model keeps the bare file name. `downloaded_paths` is the `saved` sequence.
- `time.sleep`, `print` logging, `create_directories` and `main` (main.py:30-35, 168-178). The shortfall warning is the `shortfall` flag.
- `IMAGES_TO_FETCH = int(IMAGES_NEEDED * 1.1)` (main.py:22) is float arithmetic. `num_images_to_fetch` is a plain natural-number parameter.
- Scroll.ScrollUntilStable: the source loops `while True` with no bound, so it need not terminate. The model sees finitely many heights. When none of them repeats, it reports `StillGrowing`, meaning the real loop would still be running. `ScrapeClass` then ends with `StillScrolling`.
- On a page-load timeout the code returns without printing the shortfall warning (main.py:76-79); `LoadTimedOut` carries no shortfall flag.
- Scrape.ScrapeClass: browser errors outside the two `try` blocks are not modelled. Only the `TimeoutException` of the page wait (main.py:74-79) and errors while handling a thumbnail (main.py:104-134) are caught. An error raised by `driver.get` (main.py:71), by `execute_script` in the scroll loop (main.py:83, 85, 88), by `find_elements` (main.py:95) or by `driver.quit` (main.py:136) leaves `scrape_class_images`. `main` does not catch it either (main.py:172-173), so the program stops and the remaining classes are never scraped. `RunResult` has no outcome for this; the model assumes these calls succeed.
