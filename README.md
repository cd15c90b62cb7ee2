# A verified model of the flagreddit dataset builder

`dataset.py` collects r/science submissions from the Pushshift search API, one
request per day window, keeps the flaired posts (each distinct raw post once),
reduces them to `author`, `created_utc`, `title` and `link_flair_text`, shuffles
them and cuts them into a training and a test set. This project models the three
list-processing steps of that pipeline in Dafny and proves what they do:

- `Collector` — `create_dataset`: a loop over day indices `0 .. days-1` that
  issues one request per day with page size `min(nb_per_day, 500)` and appends
  the posts of every successful request. The HTTP call `get_posts` is a
  function parameter `fetch: Request -> Option<seq<RawPost>>`.
- `Preprocessor` — `preprocess`: pass 1 is a loop (`DedupFlaired`) that keeps a
  raw post when it is not yet in the list built so far and has the
  `link_flair_text` key. Its specification is `KeepFirstFlaired`. Pass 2
  (`ProjectAll`) projects each kept post onto the four wanted keys. A kept post
  missing `author`, `created_utc` or `title` raises `KeyError` in the source.
  Here that is a `Failure(KeyError(key))` result naming the first missing key.
- `Splitter` — `shuffle_and_split`: `Shuffle` is the Fisher–Yates loop of
  `random.shuffle` on an array, with the random index left as a free choice.
  `Split` cuts the list at `int(ratio * len)`. The ratio is the rational
  `num / den`. `int()` truncates toward zero, and Python's slice bounds are
  normalised (a negative bound counts from the end, both are clamped).
- `Posts` — the records: a raw post is a `map<string, Value>` over JSON values,
  a filtered post is a four-field record, and `AsMap` gives the dictionary the
  source builds from it.
- `Wrappers` — `Option` (Python's `None`) and `Result` (a value or the
  exception raised).

Where the code and its written description disagree, the model follows the code:

- The output of `preprocess` can hold two equal records. Deduplication compares
  whole raw posts before projection, so two posts that differ only in a dropped
  key both survive (`Preprocessor.ProjectedMayRepeat`).
- The flair test is key presence, not "non-null". A post whose
  `link_flair_text` is JSON `null` is kept, and its `null` is copied through
  (`Preprocessor.NullFlairKept`).

## Model

| member | source | states |
|---|---|---|
| `Posts.AsMap` | dataset.py:34 | the dictionary of a filtered post has exactly the four wanted keys |
| `Posts.Project` | dataset.py:117 | projection succeeds iff the post has all four wanted keys; it then equals the post restricted to those keys, so extra keys are dropped and values are unchanged; otherwise it fails with the first wanted key, in `WANTED_KEYS` order, that is absent |
| `Posts.FlairedFailsOnOtherKey` | dataset.py:114-117 | a post that passed the flair test can only fail projection on `author`, `created_utc` or `title` |
| `Posts.ProjectExample` | dataset.py:117 | `{author, created_utc, title, link_flair_text, score}` projects to the four values, and `score` is gone |
| `Preprocessor.KeepFirstFlaired` | dataset.py:113-115 | reference definition of pass 1, read left to right. `KeptMembers`, `KeptDistinct` and `KeptInFirstOccurrenceOrder` together determine it, `KeptLength` gives its size, and `DedupFlaired` proves the loop equal to it |
| `Preprocessor.KeptMembers` | dataset.py:113-115 | a raw post is kept by pass 1 iff it occurs in the input and has the flair key |
| `Preprocessor.KeptDistinct` | dataset.py:114-115 | pass 1 never keeps two equal raw posts |
| `Preprocessor.KeptInFirstOccurrenceOrder` | dataset.py:113-115 | the kept posts occur in the input, ordered by where each first occurs there |
| `Preprocessor.KeptShorter` | dataset.py:113-115 | pass 1 never yields more posts than it reads |
| `Preprocessor.KeptLength` | dataset.py:113-117 | pass 1 yields exactly one post per distinct flaired input post, at most the input length |
| `Preprocessor.DedupFlaired` | dataset.py:110-115 | the loop builds `KeepFirstFlaired(dataset)`: no repeats, and exactly the flaired input posts |
| `Preprocessor.ProjectAll` | dataset.py:117 | the comprehension succeeds iff every post projects; it then maps each post to its projection, position by position; otherwise it fails with the error of the first post that does not project |
| `Preprocessor.Preprocess` | dataset.py:92-118 | succeeds iff every flaired input post has all wanted keys; then one record per distinct flaired post, each the projection of a flaired input post; a failure names `author`, `created_utc` or `title`, never the flair key |
| `Preprocessor.UnflairedDropped` | dataset.py:114 | `[{author, title}]` without a flair preprocesses to `[]` |
| `Preprocessor.ProjectedMayRepeat` | dataset.py:114-117 | two raw posts differing only in a dropped key both survive and project to equal records |
| `Preprocessor.NullFlairKept` | dataset.py:114 | a post whose flair value is `null` passes the flair test and keeps that value |
| `Splitter.TruncDiv` | dataset.py:133 | `int()` of a quotient, truncated toward zero: floor division on a non-negative numerator; on a negative one, the integer q with `(q - 1) * b < a <= q * b`, so q is at most 0 |
| `Splitter.SliceBound` | dataset.py:134-135 | a slice bound in a list of length n: in range it is itself, above n it is n, negative it counts from the end, below -n it is 0 |
| `Splitter.SplitIndex` | dataset.py:133-135 | `split_index`, as a slice position, lies in `0..len`. For a ratio in [0,1] it is `num * len / den` rounded down. For a ratio of 1 or more it is `len`. For a ratio in [-1,0) with t = `(-num) * len / den` rounded down, it is 0 when t is 0 and `len - t` otherwise. For a ratio of -1 or less it is 0 |
| `Splitter.Split` | dataset.py:133-136 | `train + test` is the list, and the two multisets add up to the list's. For a ratio in [0,1], `train` has `num * len / den` elements. For a ratio in [-1,0), a negative index counts from the end, so `train` has `len - t` elements, or none when t is 0 |
| `Splitter.SplitExtremes` | dataset.py:133-135 | ratio 0 gives an empty training set; ratio 1 or more gives an empty test set |
| `Splitter.SplitSizes` | dataset.py:133-135 | for a ratio in [0,1], the training size t satisfies `t * den <= num * len < (t + 1) * den`, and the test size is `len - t` |
| `Splitter.Shuffle` | dataset.py:132 | the array after the shuffle holds the same multiset of elements |
| `Splitter.ShuffleAndSplit` | dataset.py:121-136 | the caller's array is permuted in place; `train + test` is the permuted array; nothing is lost or duplicated; the training size follows the ratio |
| `Collector.DayCount` | dataset.py:82 | reference definition of how many iterations `range(days)` makes: `days`, or 0 when `days` is negative. `CreateDataset` and `RequestsWellFormed` use it |
| `Collector.PageSize` | dataset.py:84 | `min(nb_per_day, 500)`: the result is at most both arguments and equals one of them |
| `Collector.Requests` | dataset.py:82-84 | reference definition of the `get_posts` calls in order. `RequestsWellFormed` proves their count, day order, subreddit and size bound |
| `Collector.Gather` | dataset.py:85-88 | reference definition of extend-or-skip over a run of requests. `GatherAppend`, `GatherMembers` and `GatherSkipsFailure` prove its properties, and `CreateDataset` proves the loop equal to it |
| `Collector.RequestsWellFormed` | dataset.py:82-84 | one request per day `i` in `0..days-1`, in day order, each for r/science with size `min(nb_per_day, 500) <= 500` |
| `Collector.GatherAppend` | dataset.py:82-88 | gathering over two runs of requests is the concatenation of gathering over each |
| `Collector.GatherMembers` | dataset.py:85-86 | a post is gathered iff some successful request returned it |
| `Collector.GatherSkipsFailure` | dataset.py:85-88 | a failed request contributes nothing, and the requests after it still contribute |
| `Collector.CreateDataset` | dataset.py:67-89 | the loop returns the day-ordered concatenation of the successful fetches; `days <= 0` gives `[]`; a post is in the result iff a day in range returned it |
| `Collector.ThirdDayFails` | dataset.py:82-89 | a 3-day run whose third request fails returns day 0's posts followed by day 1's |

## Left out

- `get_posts` (dataset.py:38-64), the HTTP request and JSON decoding, is a function parameter. It is modelled as deterministic: the same request always gets the same answer.
- The `['data']` lookup on the decoded response, and a response that is not JSON, are not modelled. The fetch parameter returns the `data` list directly.
- Collector.CreateDataset: the fetch parameter cannot raise. In the source, `requests.get` (dataset.py:60) can raise on a connection error or time-out. That exception is not caught, so it ends `create_dataset` and the whole run. "A failed request contributes nothing and the later ones still do" covers only the `None` answer, that is, a non-200 status.
- The default arguments `days=1` and `nb_per_day=500` (dataset.py:67) and `ratio=0.8` (dataset.py:121) are not constants of the model. Every operation takes them as explicit parameters. The driver's call `create_dataset(days=1095)` with the default `ratio=0.8` corresponds to `days = 1095`, `nbPerDay = 500`, `num = 4`, `den = 5`.
- The `before` parameter is the day index. Its rendering as the string `"<i>d"` is not modelled.
- `write_to_csv` (dataset.py:139-156): directory creation, file output and CSV escaping belong to the `csv` and `os` libraries. They are not part of this model.
- The `print` warnings (dataset.py:79, 88, 156) and the module-level driver (dataset.py:159-164) are not modelled. The warnings are logging only, and the driver only wires the steps together.
- Splitter.Shuffle: states only that the result is a permutation. The distribution of `random.shuffle` is not modelled.
- Splitter.Split: the float `ratio` is the rational `num / den` with `den > 0`. Float rounding of `ratio * len` and NaN or infinite ratios are not modelled.
- JSON numbers are integers. Python compares `1`, `1.0` and `True` as equal inside dictionaries, but the model's structural equality on `Value` tells them apart.
