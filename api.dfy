/** `app/main.py`: the `POST /meal_plan` handler, which turns one generated plan text into
    up to three meals with an image URL and an audio URL each, and `path_to_url`. The
    generative backend is a parameter: the plan text it returned, the HTTP status of each
    image download, and whether each speech synthesis succeeded. */
module Api {
  import opened Wrappers
  import opened Sequences
  import opened Strings
  import opened Paths
  import opened Services

  datatype Meal = Meal(title: string, text: string, imageUrl: string, audioUrl: string)

  datatype MealPlanResponse = MealPlanResponse(rawPlan: string, meals: seq<Meal>)

  /** An `HTTPException`, or the 500 reply FastAPI sends for an exception the route
      does not catch. */
  datatype HttpError = HttpError(status: int, detail: string)

  const GenerationFailed := HttpError(500, "Meal plan generation failed.")
  const BadlyFormatted := HttpError(500, "Meal plan from GPT was empty or badly formatted.")
  const InternalServerError := HttpError(500, "Internal Server Error")

  /** The handler never builds more than this many meals. */
  const MaxMeals: nat := 3

  // ---------------------------------------------------------------- path_to_url

  /** `path_to_url(path, request)`: the public URL of a file under the static root, or
      `None` where `relative_to` raises because the path lies elsewhere. */
  function PathToUrl(path: Path, appDir: Path, baseUrl: string): (url: Option<string>)
    ensures url.Some? <==> StaticDir(appDir) <= path
    ensures url.Some? ==> baseUrl + "static/" <= url.value
  {
    match RelativeTo(path, StaticDir(appDir))
    case None => None
    case Some(rel) => Some(baseUrl + "static/" + AsPosix(rel))
  }

  /** The URL an image is published under, written out from the storage layout. */
  function ImageUrl(baseUrl: string, title: string): string
  {
    baseUrl + "static/images/" + SafeFilename(title) + ".png"
  }

  /** The URL of the audio of the meal at 1-based position `idx`. */
  function AudioUrl(baseUrl: string, idx: nat): string
  {
    baseUrl + "static/audio/meal_" + DecimalString(idx) + ".mp3"
  }

  lemma JoinTwo(a: string, b: string, sep: string)
    ensures JoinWith([a, b], sep) == a + sep + b
  {
    assert [a, b][1..] == [b];
  }

  /** The URL of the file `dir/stem+ext` under the static root. */
  lemma PathToUrlOfFile(appDir: Path, baseUrl: string, dir: string, stem: string, ext: string)
    ensures PathToUrl(StaticDir(appDir) + [dir, stem + ext], appDir, baseUrl) ==
      Some(baseUrl + ("static/" + dir + "/") + stem + ext)
  {
    var rel := [dir, stem + ext];
    assert (StaticDir(appDir) + rel)[|StaticDir(appDir)|..] == rel;
    JoinTwo(dir, stem + ext, "/");
    var root, sub := "static/", dir + "/";
    AppendAssoc(root, dir, "/");
    calc {
      baseUrl + root + (sub + (stem + ext));
    == { AppendAssoc(baseUrl + root, sub, stem + ext); }
      baseUrl + root + sub + (stem + ext);
    == { AppendAssoc(baseUrl, root, sub); }
      baseUrl + (root + sub) + (stem + ext);
    == { AppendAssoc(baseUrl + (root + sub), stem, ext); }
      baseUrl + (root + sub) + stem + ext;
    }
  }

  /** The image of a title is published at `static/images/<token>.png`. */
  lemma ImagePathToUrl(appDir: Path, baseUrl: string, title: string)
    ensures PathToUrl(ImagePath(appDir, title), appDir, baseUrl) == Some(ImageUrl(baseUrl, title))
  {
    ImagePathComponents(appDir, title);
    PathToUrlOfFile(appDir, baseUrl, "images", SafeFilename(title), ".png");
    UrlDirectories();
  }

  lemma ImagePathComponents(appDir: Path, title: string)
    ensures ImagePath(appDir, title) == StaticDir(appDir) + ["images", SafeFilename(title) + ".png"]
  {
  }

  lemma AudioPathComponents(appDir: Path, prefix: string)
    ensures AudioPath(appDir, prefix) == StaticDir(appDir) + ["audio", prefix + ".mp3"]
  {
  }

  /** The URL directories of the two kinds of asset. */
  lemma UrlDirectories()
    ensures "static/" + "images" + "/" == "static/images/"
    ensures "static/" + "audio" + "/" == "static/audio/"
  {
  }

  /** The audio of a prefix is published at `static/audio/<prefix>.mp3`. */
  lemma AudioPathToUrl(appDir: Path, baseUrl: string, prefix: string)
    ensures PathToUrl(AudioPath(appDir, prefix), appDir, baseUrl) ==
      Some(baseUrl + "static/audio/" + prefix + ".mp3")
  {
    AudioPathComponents(appDir, prefix);
    PathToUrlOfFile(appDir, baseUrl, "audio", prefix, ".mp3");
    UrlDirectories();
  }

  /** The audio of the meal at 1-based position `idx` is published at `AudioUrl`. */
  lemma MealAudioPathToUrl(appDir: Path, baseUrl: string, idx: nat)
    ensures PathToUrl(AudioPath(appDir, "meal_" + DecimalString(idx)), appDir, baseUrl) ==
      Some(AudioUrl(baseUrl, idx))
  {
    var prefix := "meal_" + DecimalString(idx);
    AudioPathToUrl(appDir, baseUrl, prefix);
    assert baseUrl + "static/audio/" + prefix == baseUrl + "static/audio/meal_" + DecimalString(idx);
  }

  /** Past `<base>static/`, the URL of any file under the static root lists the file's
      components below the root, separated by `/`. */
  lemma PathToUrlReadsBack(path: Path, appDir: Path, baseUrl: string)
    requires StaticDir(appDir) <= path && |path| > |StaticDir(appDir)|
    requires forall k :: |StaticDir(appDir)| <= k < |path| ==> '/' !in path[k]
    ensures var url := PathToUrl(path, appDir, baseUrl).value;
      && |baseUrl + "static/"| <= |url|
      && SplitOn(url[|baseUrl + "static/"|..], '/') == path[|StaticDir(appDir)|..]
  {
    var root := StaticDir(appDir);
    var rel := path[|root|..];
    var prefix := baseUrl + "static/";
    assert PathToUrl(path, appDir, baseUrl).value == prefix + AsPosix(rel);
    assert (prefix + AsPosix(rel))[|prefix|..] == AsPosix(rel);
    assert forall k :: 0 <= k < |rel| ==> rel[k] == path[|root| + k];
  }

  /** Distinct files under the static root get distinct URLs. */
  lemma PathToUrlInjective(appDir: Path, baseUrl: string, p1: Path, p2: Path)
    requires StaticDir(appDir) <= p1 && StaticDir(appDir) <= p2
    requires forall k :: 0 <= k < |p1| ==> IsName(p1[k])
    requires forall k :: 0 <= k < |p2| ==> IsName(p2[k])
    requires PathToUrl(p1, appDir, baseUrl) == PathToUrl(p2, appDir, baseUrl)
    ensures p1 == p2
  {
    var root := StaticDir(appDir);
    var r1, r2 := p1[|root|..], p2[|root|..];
    var prefix := baseUrl + "static/";
    assert PathToUrl(p1, appDir, baseUrl).value == prefix + AsPosix(r1);
    assert PathToUrl(p2, appDir, baseUrl).value == prefix + AsPosix(r2);
    PrefixCancels(prefix, AsPosix(r1), AsPosix(r2));
    AsPosixInjective(r1, r2);
    assert p1 == root + r1 && p2 == root + r2;
  }

  lemma PrefixCancels(p: string, a: string, b: string)
    requires p + a == p + b
    ensures a == b
  {
    assert a == (p + a)[|p|..];
    assert b == (p + b)[|p|..];
  }

  /** Two meals share an image URL exactly when their titles sanitise to the same token. */
  lemma ImageUrlDependsOnlyOnToken(baseUrl: string, t1: string, t2: string)
    ensures ImageUrl(baseUrl, t1) == ImageUrl(baseUrl, t2) <==> SafeFilename(t1) == SafeFilename(t2)
  {
    var p := baseUrl + "static/images/";
    if ImageUrl(baseUrl, t1) == ImageUrl(baseUrl, t2) {
      SuffixCancels(p + SafeFilename(t1), p + SafeFilename(t2), ".png");
      PrefixCancels(p, SafeFilename(t1), SafeFilename(t2));
    }
  }

  /** Meals at different positions get different audio URLs. */
  lemma AudioUrlsDistinct(baseUrl: string, i: nat, j: nat)
    ensures AudioUrl(baseUrl, i) == AudioUrl(baseUrl, j) <==> i == j
  {
    var p := baseUrl + "static/audio/meal_";
    if AudioUrl(baseUrl, i) == AudioUrl(baseUrl, j) {
      SuffixCancels(p + DecimalString(i), p + DecimalString(j), ".mp3");
      PrefixCancels(p, DecimalString(i), DecimalString(j));
      DecimalStringInjective(i, j);
    }
  }

  // ---------------------------------------------------------------- generate_meal_plan

  /** `not plan_text or not plan_text.strip()`, where a missing message content is `None`. */
  predicate IsBlankPlan(planText: Option<string>): (blank: bool)
    ensures blank <==>
      planText.None? || forall i :: 0 <= i < |planText.value| ==> planText.value[i] in Whitespace
  {
    if planText.None? then true
    else
      StripEmpty(planText.value, Whitespace);
      Strip(planText.value) == ""
  }

  function Min(a: nat, b: nat): nat
  {
    if a <= b then a else b
  }

  /** How many meals the handler builds: `min(3, sections, titles)`. */
  function MealCount(sectionCount: nat, titleCount: nat): (n: nat)
    ensures n <= MaxMeals && n <= sectionCount && n <= titleCount
    ensures n == MaxMeals || n == sectionCount || n == titleCount
  {
    Min(MaxMeals, Min(sectionCount, titleCount))
  }

  /** The reconciliation after splitting: when either list is shorter than three, cut both to
      `count = min(3, len(meal_sections), len(titles))` or fail when `count` is 0; then keep
      at most the first three of each. */
  method Reconcile(sections: seq<string>, titles: seq<string>)
    returns (r: Result<(seq<string>, seq<string>), HttpError>)
    ensures r.Failure? <==> MealCount(|sections|, |titles|) == 0
    ensures r.Failure? ==> r.error == BadlyFormatted
    ensures r.Success? ==>
      var n := MealCount(|sections|, |titles|);
      r.value == (sections[..n], titles[..n])
  {
    var mealSections, mealTitles := sections, titles;
    if |mealSections| < MaxMeals || |mealTitles| < MaxMeals {
      var count := Min(MaxMeals, Min(|mealSections|, |mealTitles|));
      if count == 0 {
        return Failure(BadlyFormatted);
      }
      mealSections := mealSections[..count];
      mealTitles := mealTitles[..count];
    }
    mealSections := Take(mealSections, MaxMeals);
    mealTitles := Take(mealTitles, MaxMeals);
    return Success((mealSections, mealTitles));
  }

  /** The meal at 0-based position `i` of the zipped lists. */
  function ExpectedMeal(sections: seq<string>, titles: seq<string>, baseUrl: string, i: nat): Meal
    requires i < |sections| && i < |titles|
  {
    Meal(titles[i], sections[i], ImageUrl(baseUrl, titles[i]), AudioUrl(baseUrl, i + 1))
  }

  /** The meals `zip(sections, titles)` yields when every asset is produced. */
  function ExpectedMeals(sections: seq<string>, titles: seq<string>, baseUrl: string): (meals: seq<Meal>)
    ensures |meals| == Min(|sections|, |titles|)
  {
    seq(Min(|sections|, |titles|), i requires 0 <= i < Min(|sections|, |titles|) =>
      ExpectedMeal(sections, titles, baseUrl, i))
  }

  /** The image download and the speech synthesis of the meal at 0-based position `i`
      both succeed. */
  predicate AssetsReady(imageStatus: nat -> int, speechOk: nat -> bool, i: nat)
  {
    imageStatus(i) == 200 && speechOk(i)
  }

  predicate AllAssetsReady(imageStatus: nat -> int, speechOk: nat -> bool, n: nat)
  {
    forall i :: 0 <= i < n ==> AssetsReady(imageStatus, speechOk, i)
  }

  /** A failed asset at a position before `n` means not every asset up to `n` is ready. */
  lemma NotAllReady(imageStatus: nat -> int, speechOk: nat -> bool, i: nat, n: nat)
    requires i < n && !AssetsReady(imageStatus, speechOk, i)
    ensures !AllAssetsReady(imageStatus, speechOk, n)
  {
  }

  /** The ready assets up to `i` extend by one when the asset at `i` is ready. */
  lemma AllReadyStep(imageStatus: nat -> int, speechOk: nat -> bool, i: nat)
    requires AllAssetsReady(imageStatus, speechOk, i) && AssetsReady(imageStatus, speechOk, i)
    ensures AllAssetsReady(imageStatus, speechOk, i + 1)
  {
  }

  /** The loop has built the expected meals of the first `i` pairs. */
  ghost predicate BuiltUpTo(meals: seq<Meal>, sections: seq<string>, titles: seq<string>, baseUrl: string, i: nat)
  {
    && |meals| == i && i <= |sections| && i <= |titles|
    && forall k :: 0 <= k < i ==> meals[k] == ExpectedMeal(sections, titles, baseUrl, k)
  }

  /** Appending the expected meal of pair `i` extends what is built by one. */
  lemma BuiltStep(meals: seq<Meal>, sections: seq<string>, titles: seq<string>, baseUrl: string, i: nat, meal: Meal)
    requires BuiltUpTo(meals, sections, titles, baseUrl, i) && i < |sections| && i < |titles|
    requires meal == Meal(titles[i], sections[i], ImageUrl(baseUrl, titles[i]), AudioUrl(baseUrl, i + 1))
    ensures BuiltUpTo(meals + [meal], sections, titles, baseUrl, i + 1)
  {
  }

  /** A list holding the expected meal at every position of the zip is the expected reply. */
  lemma MealsComplete(sections: seq<string>, titles: seq<string>, baseUrl: string, meals: seq<Meal>)
    requires BuiltUpTo(meals, sections, titles, baseUrl, Min(|sections|, |titles|))
    ensures meals == ExpectedMeals(sections, titles, baseUrl)
  {
  }

  /** One turn of the `for idx, (section_text, title) in enumerate(…, start=1)` loop: store
      the image and the audio of the meal at 1-based position `idx` and publish both, or fail
      with the first asset that fails. */
  method BuildMeal(appDir: Path, baseUrl: string, idx: nat, sectionText: string, title: string,
                   imageStatus: int, synthesized: bool)
    returns (meal: Option<Meal>)
    ensures meal.Some? <==> imageStatus == 200 && synthesized
    ensures meal.Some? ==>
      meal.value == Meal(title, sectionText, ImageUrl(baseUrl, title), AudioUrl(baseUrl, idx))
  {
    var imagePath := CreateAndSaveImage(appDir, title, imageStatus);
    if imagePath.None? {
      return None;
    }
    ImagePathToUrl(appDir, baseUrl, title);
    var imageUrl := PathToUrl(imagePath.value, appDir, baseUrl).value;
    var prefix := "meal_" + DecimalString(idx);
    var audioPath := Speak(appDir, prefix, synthesized);
    if audioPath.None? {
      return None;
    }
    MealAudioPathToUrl(appDir, baseUrl, idx);
    var audioUrl := PathToUrl(audioPath.value, appDir, baseUrl).value;
    return Some(Meal(title, sectionText, imageUrl, audioUrl));
  }

  /** The `for` loop over `zip(meal_sections, titles)`: for each pair, in order, build the
      meal; the first asset that fails ends the request. */
  method BuildMeals(sections: seq<string>, titles: seq<string>, appDir: Path, baseUrl: string,
                    imageStatus: nat -> int, speechOk: nat -> bool)
    returns (r: Result<seq<Meal>, HttpError>)
    ensures r.Success? <==> AllAssetsReady(imageStatus, speechOk, Min(|sections|, |titles|))
    ensures r.Success? ==> r.value == ExpectedMeals(sections, titles, baseUrl)
    ensures r.Failure? ==> r.error == InternalServerError
  {
    var meals: seq<Meal> := [];
    var m := Min(|sections|, |titles|);
    for i := 0 to m
      invariant BuiltUpTo(meals, sections, titles, baseUrl, i)
      invariant AllAssetsReady(imageStatus, speechOk, i)
    {
      var meal := BuildMeal(appDir, baseUrl, i + 1, sections[i], titles[i], imageStatus(i), speechOk(i));
      if meal.None? {
        NotAllReady(imageStatus, speechOk, i, m);
        return Failure(InternalServerError);
      }
      BuiltStep(meals, sections, titles, baseUrl, i, meal.value);
      AllReadyStep(imageStatus, speechOk, i);
      meals := meals + [meal.value];
    }
    MealsComplete(sections, titles, baseUrl, meals);
    return Success(meals);
  }

  /** `generate_meal_plan`: reject a blank plan, split it into sections and titles,
      reconcile the two, and build the meals. */
  method GenerateMealPlan(planText: Option<string>, appDir: Path, baseUrl: string,
                          imageStatus: nat -> int, speechOk: nat -> bool)
    returns (r: Result<MealPlanResponse, HttpError>)
    ensures IsBlankPlan(planText) ==> r == Failure(GenerationFailed)
    ensures !IsBlankPlan(planText) ==>
      var text := planText.value;
      var n := MealCount(|Segment(text)|, |ExtractTitles(text)|);
      && (n == 0 ==> r == Failure(BadlyFormatted))
      && (n > 0 ==> (r.Success? <==> AllAssetsReady(imageStatus, speechOk, n)))
      && (n > 0 && r.Failure? ==> r.error == InternalServerError)
      && (r.Success? ==> r.value == MealPlanResponse(text,
            ExpectedMeals(Segment(text)[..n], ExtractTitles(text)[..n], baseUrl)))
  {
    if IsBlankPlan(planText) {
      return Failure(GenerationFailed);
    }
    var text := planText.value;
    var mealSections := SplitMeals(text);
    var titles := ExtractTitles(text);
    var reconciled := Reconcile(mealSections, titles);
    if reconciled.Failure? {
      return Failure(reconciled.error);
    }
    var (sections, names) := reconciled.value;
    var built := BuildMeals(sections, names, appDir, baseUrl, imageStatus, speechOk);
    if built.Failure? {
      return Failure(built.error);
    }
    return Success(MealPlanResponse(text, built.value));
  }

  // ---------------------------------------------------------------- properties of the reply

  /** The reply holds between one and three meals, and meal `i` pairs title `i` with
      section `i`: nothing is invented and the excess is dropped. */
  lemma MealsArePositional(text: string, baseUrl: string)
    requires MealCount(|Segment(text)|, |ExtractTitles(text)|) > 0
    ensures var sections, titles := Segment(text), ExtractTitles(text);
      var n := MealCount(|sections|, |titles|);
      var meals := ExpectedMeals(sections[..n], titles[..n], baseUrl);
      && 1 <= |meals| <= MaxMeals
      && forall i :: 0 <= i < |meals| ==>
           meals[i].title == titles[i] && meals[i].text == sections[i]
           && meals[i].imageUrl == ImageUrl(baseUrl, titles[i])
           && meals[i].audioUrl == AudioUrl(baseUrl, i + 1)
  {
    var sections, titles := Segment(text), ExtractTitles(text);
    var n := MealCount(|sections|, |titles|);
    MealsOfPrefixes(sections, titles, baseUrl, n);
  }

  /** The meals of the first `n` sections and titles, position by position. */
  lemma MealsOfPrefixes(sections: seq<string>, titles: seq<string>, baseUrl: string, n: nat)
    requires n <= |sections| && n <= |titles|
    ensures var meals := ExpectedMeals(sections[..n], titles[..n], baseUrl);
      && |meals| == n
      && forall i :: 0 <= i < n ==>
           meals[i].title == titles[i] && meals[i].text == sections[i]
           && meals[i].imageUrl == ImageUrl(baseUrl, titles[i])
           && meals[i].audioUrl == AudioUrl(baseUrl, i + 1)
  {
  }

  /** No two meals of a reply share an audio file. */
  /** The audio URL stored in the meal at 0-based position `i`. */
  lemma MealAudioUrlAt(sections: seq<string>, titles: seq<string>, baseUrl: string, i: nat)
    requires i < |ExpectedMeals(sections, titles, baseUrl)|
    ensures ExpectedMeals(sections, titles, baseUrl)[i].audioUrl == AudioUrl(baseUrl, i + 1)
  {
  }

  /** Two meals whose audio URLs are those of different indices hold different audio URLs. */
  lemma AudioOfDistinctIndices(meals: seq<Meal>, baseUrl: string, i: nat, j: nat)
    requires i < |meals| && j < |meals| && i != j
    requires meals[i].audioUrl == AudioUrl(baseUrl, i + 1)
    requires meals[j].audioUrl == AudioUrl(baseUrl, j + 1)
    ensures meals[i].audioUrl != meals[j].audioUrl
  {
    AudioUrlsDistinct(baseUrl, i + 1, j + 1);
  }

  /** No two meals of a reply share an audio file. */
  lemma MealAudioIsDistinct(sections: seq<string>, titles: seq<string>, baseUrl: string, i: nat, j: nat)
    requires i < |ExpectedMeals(sections, titles, baseUrl)| && j < |ExpectedMeals(sections, titles, baseUrl)|
    requires i != j
    ensures ExpectedMeals(sections, titles, baseUrl)[i].audioUrl != ExpectedMeals(sections, titles, baseUrl)[j].audioUrl
  {
    MealAudioUrlAt(sections, titles, baseUrl, i);
    MealAudioUrlAt(sections, titles, baseUrl, j);
    AudioOfDistinctIndices(ExpectedMeals(sections, titles, baseUrl), baseUrl, i, j);
  }
}
