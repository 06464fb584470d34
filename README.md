# Daily meal planner: the text-to-meals pipeline

This project models the deterministic core of a small FastAPI service. The service asks a
generative text model for a day's meal plan. It cuts the free-text answer into meal sections
and reads the meal titles from its last line. It then pairs sections with titles, up to
three meals, and for each meal stores a generated image and a spoken-audio file under the
static directory and publishes their URLs.

The model covers `app/services.py` and `app/main.py`:

- `safe_filename`, the sanitiser that turns a title into a file name.
- `split_meals`, a line-by-line loop modelled as a method with loop invariants, proved equal to the
  specification function `Segment`.
- `extract_titles`, which splits the last line at commas.
- The asset names `images/<token>.png` and `audio/meal_<n>.mp3`.
- `path_to_url`, which maps a file under `app/static` to its public URL.
- The `POST /meal_plan` handler `generate_meal_plan`: the blank-plan check, the reconciliation
  of section and title counts, the loop that builds the meals, and the reply.

The generative backend is a parameter of the model. It supplies:

- the plan text, or `None` when the message has no content;
- the HTTP status of each image download;
- whether each speech synthesis succeeded.

Modules:

- `Wrappers`: `Option` and `Result`.
- `Sequences`: generic filter, map, take and split on sequences, with their laws.
- `Strings`: Python's `str.strip`, `str.split`, `str.join`, `splitlines` and `str(int)` on
  `seq<char>`.
- `Paths`: `relative_to` and `as_posix` on resolved paths, written as lists of components.
- `Services`: `app/services.py`.
- `Api`: `app/main.py`.

Three Python behaviours are modelled exactly:

- `strip()` with no argument removes the characters for which `str.isspace` holds.
- `strip(" '")` removes spaces and single quotes.
- `re.sub(r"[^A-Za-z0-9_\-]", "", s)` keeps ASCII letters, digits, `_` and `-`.

The model follows the code as written. At these points its behaviour may surprise a reader:

- Titles come from the literal last line of the text, even when it is blank. A trailing blank
  line therefore hides the title line (`Services.TrailingBlankLineHidesTitles`).
- The filter runs `t.strip()` before the quotes are removed. A fragment made only of quotes
  therefore passes the filter and yields an empty title (`Services.QuoteOnlyLineGivesEmptyTitle`).
- Images are named after the sanitised title, not after a fixed meal slot. Titles that sanitise
  alike share one image file, e.g. `X` and `X!` for any non-empty `X` that neither starts nor
  ends with whitespace (`Services.ImagePathCollision`).
- Audio files are named `meal_1`, `meal_2`, `meal_3` by 1-based position.
- There is no `recipes/` directory, no stored recipe text and no HTML view route. Meals carry
  no HTML URL.
- The reply holds between one and three meals, although the handler's docstring
  (`app/main.py:97`) and the app description (`app/main.py:26`) speak of a 3-meal plan.

## Model

| member | source | states |
|---|---|---|
| Services.SafeFilename | app/services.py:28-38 | every character of the file name is an ASCII letter, a digit, `_` or `-` |
| Services.SafeFilenameByChar | app/services.py:35-37 | the file name is the stripped title read left to right: each space becomes `_`, every other allowed character is kept, the rest are dropped |
| Services.SafeFilenameIdempotent | app/services.py:28-38 | sanitising a file name again changes nothing |
| Services.SafeFilenamePunctuatedTitle | app/services.py:29-34 | a title shaped like `Grilled *Chicken*, v2!` becomes `Grilled_Chicken_v2`: asterisks, comma and bang dropped, spaces turned into `_` |
| Services.SplitMeals | app/services.py:94-119 | the loop over the lines returns exactly `Segment(plan_text)`: the runs between separator lines that hold a non-blank line, each joined with newlines and stripped, in order |
| Services.CollectNext | app/services.py:105-113 | one step of the loop keeps its invariant: `blocks` are the non-empty runs closed so far and `current` is the open run |
| Services.CollectedSections | app/services.py:115-119 | flushing the open run after the last line and rendering the blocks with content gives the sections |
| Services.ShortDashLineIsContent | app/services.py:106-108 | a run of fewer than ten dashes is not a separator but an ordinary, non-blank content line |
| Services.PaddedDashLineIsSeparator | app/services.py:106-108 | a run of ten or more dashes is a separator, whatever whitespace surrounds it |
| Services.BlocksHaveContentAndNoSeparator | app/services.py:105-119 | every block behind a section holds a non-blank line and no separator line |
| Services.SectionsAreTrimmedAndNonBlank | app/services.py:119 | every section is non-empty and neither starts nor ends with whitespace |
| Services.SectionsKeepContentLinesInOrder | app/services.py:101-119 | the non-blank lines of the blocks behind the sections, in order, are exactly the plan's lines that are neither separators nor blank |
| Services.SectionBlocksKeepEveryLine | app/services.py:101-119 | when every run between separators holds a non-blank line, the lines of the blocks behind the sections, in order, are exactly the plan's non-separator lines, blank lines included |
| Services.SectionCount | app/services.py:101-119 | there are at most one more section than separator lines, and exactly that many when every run has content |
| Services.KeepTitles | app/services.py:132 | the filter yields at most one title per fragment |
| Services.KeepTitlesTrimmed | app/services.py:132 | no title starts or ends with a space or a single quote |
| Services.TitlesOfLine | app/services.py:131-132 | a title line yields at most one more title than it has commas |
| Services.TitlesOfLineShape | app/services.py:131-132 | a title line yields at most one more title than it has commas, and no title holds a comma or starts or ends with a space or a quote |
| Services.ExtractTitles | app/services.py:128-130 | an empty text has no titles |
| Services.TitlesComeFromLastLine | app/services.py:128-132 | the titles depend only on the last line; everything before it is ignored |
| Services.TitlesBeforeFinalNewline | app/services.py:128-132 | a final newline changes nothing: the titles come from the line before it, whatever precedes that line |
| Services.TitlesOfSingleLine | app/services.py:128-132 | a one-line text, with or without a final newline, yields the titles of that line |
| Services.ExtractFormattedTitles | app/services.py:123-133 | round trip: plain titles written last, separated by `", "`, are extracted unchanged and in order |
| Services.EnclosedTitleIsKept | app/services.py:132 | a plain title enclosed in any character is never filtered out |
| Services.EnclosedTitleIsBare | app/services.py:132 | a plain title enclosed in quotes or in spaces comes out bare |
| Services.TitlesOfMixedLine | app/services.py:131-132 | a line of the shape `'A', B ,C` yields exactly `[A, B, C]` |
| Services.ExtractMixedTitles | app/services.py:128-133 | such a line, written last, gives exactly its three titles |
| Services.QuoteOnlyLineGivesEmptyTitle | app/services.py:132 | a last line made only of quotes yields one empty title |
| Services.TrailingBlankLineHidesTitles | app/services.py:128-132 | a blank last line yields no titles, whatever precedes it, with or without a final newline; this includes the empty last line of a text ending in two newlines |
| Services.BlankTextHasNoTitles | app/services.py:128-133 | a text made only of whitespace yields no titles |
| Services.ImagePath | app/services.py:168-169 | the image file lies directly in the images directory, and its name is a run of `[A-Za-z0-9_-]` characters followed by `.png`, a single path component |
| Services.CreateAndSaveImage | app/services.py:170-176 | the image is written exactly when the download answers 200, otherwise the call raises; the written file is the image path and lies under the static root |
| Services.AudioPath | app/services.py:213 | the audio file lies directly in the audio directory and is named by the prefix followed by `.mp3`, a single path component when the prefix holds no `/` |
| Services.Speak | app/services.py:202-223 | the audio is written exactly when synthesis succeeds, to the audio path, which lies under the static root |
| Services.ImagePathDependsOnlyOnToken | app/services.py:168-169 | two titles get the same image file exactly when they sanitise to the same token |
| Services.ImagePathCollision | app/services.py:168-169 | a non-empty title whose first and last characters are not whitespace, and the same title followed by `!`, are different but share one image file |
| Services.AudioPathInjective | app/services.py:213 | different prefixes get different audio files; of the source this holds for prefixes without `/` (see Left out) |
| Strings.StripCharsSpec | app/services.py:106 | `strip` leaves no stripped character at either end, is empty exactly when every character is stripped, leaves a string with unstripped ends alone, and adds no character |
| Strings.StripPadded | app/services.py:106 | `strip` removes exactly the padding of stripped characters around a core whose ends are kept |
| Strings.SplitLines | app/services.py:101 | a text has no lines exactly when it is empty, and no line holds a line break |
| Strings.SplitLinesRoundTrip | app/services.py:101 | joining the lines with newlines, plus the final newline when there was one, gives the text back |
| Strings.DecimalRoundTrip | app/main.py:143 | the decimal text of a meal index reads back as that index |
| Paths.AsPosix | app/main.py:80 | a non-empty relative path of components free of `/` is read back by splitting its text at `/` |
| Paths.RelativeTo | app/main.py:79 | `relative_to` succeeds exactly when the path lies under the root, and root plus the result is the path |
| Api.PathToUrl | app/main.py:70-83 | a URL exists exactly when the file lies under the static root, and it then starts with `<base>static/` |
| Api.PathToUrlReadsBack | app/main.py:79-83 | for any file below the static root whose components hold no `/`, the URL past `<base>static/` splits at `/` into exactly the file's components below the root |
| Api.PathToUrlInjective | app/main.py:75-83 | different files under the static root get different URLs |
| Api.ImagePathToUrl | app/main.py:139-140 | the stored image of a title is published at `<base>static/images/<token>.png` |
| Api.AudioPathToUrl | app/main.py:143-144 | the stored audio of a prefix is published at `<base>static/audio/<prefix>.mp3`; of the source this holds for prefixes without `/` (see Left out) |
| Api.MealAudioPathToUrl | app/main.py:143-144 | the audio of meal `idx` is published at `<base>static/audio/meal_<idx>.mp3` |
| Api.ImageUrlDependsOnlyOnToken | app/main.py:139-140 | two meals share an image URL exactly when their titles sanitise to the same token |
| Api.AudioUrlsDistinct | app/main.py:137-144 | two meal positions share an audio URL exactly when they are equal |
| Api.IsBlankPlan | app/main.py:109-110 | a plan is rejected exactly when it is missing or made only of whitespace |
| Api.MealCount | app/main.py:116-132 | the meal count is at most 3, the section count and the title count, and equals one of them |
| Api.Reconcile | app/main.py:116-132 | the handler fails with "badly formatted" exactly when the count is 0; otherwise both lists are cut to their first `count` items |
| Api.ExpectedMeals | app/main.py:137 | the zip has as many pairs as the shorter list |
| Api.BuildMeal | app/main.py:138-153 | one meal is built exactly when its image download answers 200 and its speech succeeds; it pairs the title and section with the image and audio URLs |
| Api.BuildMeals | app/main.py:134-153 | the loop succeeds exactly when every asset up to the pair count succeeds; the meals are then the zip of sections and titles, in order; any failure is a 500 "Internal Server Error" |
| Api.GenerateMealPlan | app/main.py:95-159 | a missing or blank plan fails with "Meal plan generation failed."; no pairs fails with "badly formatted"; otherwise the reply exists exactly when every asset succeeds, holds the raw plan unchanged and the expected meals, and any other failure is a 500 |
| Api.MealsArePositional | app/main.py:116-153 | the reply holds one to three meals, and meal `i` pairs title `i` with section `i`, its sanitised image URL and the audio URL of `meal_<i+1>` |
| Api.MealAudioIsDistinct | app/main.py:143 | no two meals of a reply share an audio URL |

## Left out

- The OpenAI calls are left out: `create_meals`, image generation, `make_spoken_recipe_text` and speech synthesis. The model takes their outcomes as parameters: the plan text, each download's HTTP status and each synthesis' success.
- Prompt text is left out: it has no effect on the pipeline's logic.
- A failure inside the image-generation call itself is folded into a non-200 download status. Both end the request with a 500.
- An exception raised by `create_meals` itself (`app/main.py:101`) is not modelled. It ends the request with FastAPI's plain 500 before the blank check; the plan-text input of the model is either a text or `None` and cannot express it.
- File I/O is not modelled: `requests.get`, `shutil.copyfileobj`, `stream_to_file`, and `mkdir` at import time. Only the paths the files are written to are modelled. Files stored before a failure stay on disk, and no file-system state is modelled.
- `load_dotenv`, client construction and the `print` debug lines are left out: they have no effect on the result.
- FastAPI routing is left out: the `GET /` route, the static mount and `MealPlanRequest` validation.
- Pydantic's `HttpUrl` validation of the meal URLs is not modelled: URLs are plain strings.
- `str(request.base_url)` is a parameter, taken as given.
- `Path.resolve()` is not modelled: paths are already resolved lists of components, so symlinks and `..` are out of scope.
- Strings.SplitLines: only `\n` ends a line. Python's `splitlines` also breaks at `\r\n`, `\r`, `\v`, `\f`, `\x1c`-`\x1e`, `\x85`, `\u2028` and `\u2029`. The model agrees with Python on text free of those characters.
- An uncaught exception inside the loop is modelled as FastAPI's default 500 reply with detail "Internal Server Error".
- Services.SafeFilenamePunctuatedTitle: the docstring-style example is proved for every title of the form `w1 *w2*, w3!`, not for the literal `"Grilled *Chicken*, v2!"`. Evaluating that literal string exceeds the verifier's resource budget.
- Services.ExtractMixedTitles: the example `'A', B ,C` is proved for every three plain titles, not for the literal letters. The reason is the same.
- Services.AudioPath: a prefix holding `/` is kept as one path component `<prefix>.mp3`. pathlib's `/` (`app/services.py:213`) splits such a prefix at every `/` and drops empty components, and a prefix starting with `/` leaves the audio directory. The model's statements about such prefixes, including `Services.Speak`'s, do not describe the source. The handler only passes `meal_<n>`, which holds no `/` (`Api.MealAudioPathToUrl`).
- Services.AudioPathInjective: for the same reason this holds of the source only for prefixes without `/`. In pathlib `a/b` and `a//b` name one file.
- Api.AudioPathToUrl: for the same reason the source publishes a prefix such as `a//b` at `static/audio/a/b.mp3`, not at `static/audio/a//b.mp3`.
- Async execution: the handler awaits nothing between steps, so no concurrency is modelled.
