/** Validation and assembly of one interleaved image/text record
    (`parse_sample` and the body of `getitem` in interleaved_dataset.py).
    Image decoding, SHA-256, the metadata JSON decoder and the tokenizer
    are collaborators given in `Env`. */
module SampleAssembly {
  import opened Common

  /** The `metadata` field of a record: absent, a list, a JSON string
      that `json.loads` turns into the list, or some other JSON value (a
      dict, a number, ...). A metadata entry is `None` or some description
      (for the default, the image's file name). */
  datatype MetaField = MetaAbsent | MetaList(entries: seq<Option<string>>) | MetaEncoded(text: string) | MetaOther

  /** One interleaved record: `images[i]` is a web URL or `None`,
      `texts[i]` a text or `None` (a slot for an image). `Unshaped` is a
      JSON value that is not such a record (not an object, no `images` or
      `texts` key, or entries that are neither strings nor `None`), on
      which `parse_sample` or the rest of `getitem` raises. */
  datatype Sample =
    | Sample(
        images: seq<Option<string>>,
        texts: seq<Option<string>>,
        metadata: MetaField,
        validImage: Option<seq<bool>>)
    | Unshaped

  /** What `parse_sample` returns. */
  datatype Parsed = Parsed(
    images: seq<Option<string>>,
    texts: seq<Option<string>>,
    metadata: seq<Option<string>>,
    validImage: seq<bool>)

  /** Why one sample fails (each is an exception that `__getitem__` absorbs). */
  datatype SampleError =
    | NoRecord               // `load_data` returned `None`
    | RecordIndexError       // the shard holds fewer records than its range
    | ShardLoadFailed        // `load_jsonl` raised while swapping shards
    | NotARecord             // a KeyError or TypeError from an `Unshaped` record
    | MetadataNotList        // `json.loads` failed or gave a non-list
    | LengthMismatch         // `len(images) != len(texts)`
    | CountMismatch          // image / empty-text / valid_image counts differ
    | MetadataMismatch       // an image and its metadata disagree on `None`
    | NoValidImage           // `assert len(images) > 0 and sum(valid_image)`
    | ImageTokensTruncated   // 'image tokens are truncated'

  /** The collaborators of `getitem`. */
  datatype Env = Env(
    imageRoot: string,                                        // `self.image_path`
    sha256: string -> string,                                 // hex digest of a URL
    decodeMetadata: string -> Option<seq<Option<string>>>,    // `json.loads` of a metadata string, when it is a list
    loadable: string -> bool,                                 // `load_image` returns an image (not `None`)
    tokenize: string -> seq<int>,                             // tokenizer with truncation
    startToken: string, contextToken: string, endToken: string,
    startId: int, endId: int, contextId: int, padId: int)

  /** The tensors returned for one sample. */
  datatype Bundle = Bundle(
    inputIds: seq<int>,
    labels: seq<int>,
    attentionMask: seq<bool>,
    numPatches: nat,
    imageFlags: seq<int>)

  const ImageTag := "<image>"
  const Separator := "\n\n"
  /** The loss-ignore sentinel. */
  const IgnoreIndex := -100

  // ---------------------------------------------------------------- parse_sample

  /** The default metadata: `{'filename': sha256(url)}` per image, `None` per empty slot. */
  function DefaultMetadata(images: seq<Option<string>>, sha256: string -> string): (m: seq<Option<string>>)
    ensures |m| == |images|
    ensures forall i :: 0 <= i < |m| ==> (m[i].None? <==> images[i].None?)
  {
    seq(|images|, i requires 0 <= i < |images| =>
      if images[i].Some? then Some(sha256(images[i].value)) else None)
  }

  function ResolveMetadata(sample: Sample, env: Env): Option<seq<Option<string>>>
    requires sample.Sample?
  {
    match sample.metadata
    case MetaAbsent => Some(DefaultMetadata(sample.images, env.sha256))
    case MetaList(entries) => Some(entries)
    case MetaEncoded(text) => env.decodeMetadata(text)
    case MetaOther => None
  }

  /** `zip(images, metadata)` pairs agree on `None` (zip stops at the shorter list). */
  predicate ZipNoneAgree(images: seq<Option<string>>, meta: seq<Option<string>>)
  {
    forall i :: 0 <= i < |images| && i < |meta| ==> (images[i].None? <==> meta[i].None?)
  }

  /** The record invariant `parse_sample` asserts. */
  predicate RecordInvariant(p: Parsed)
  {
    && |p.images| == |p.texts|
    && CountSome(p.images) == CountNone(p.texts) == |p.validImage|
    && ZipNoneAgree(p.images, p.metadata)
  }

  function DefaultValid(images: seq<Option<string>>): seq<bool>
  {
    seq(CountSome(images), _ => true)
  }

  /** `parse_sample`: returns the record's parts when the invariant holds. */
  function ParseSample(sample: Sample, env: Env): (r: Result<Parsed, SampleError>)
    ensures r == Failure(NotARecord) <==> sample.Unshaped?
    ensures r.Success? ==> RecordInvariant(r.value)
    ensures r.Success? ==> r.value.images == sample.images && r.value.texts == sample.texts
    ensures r.Success? ==> Some(r.value.metadata) == ResolveMetadata(sample, env)
    ensures r.Success? && sample.validImage.Some? ==> r.value.validImage == sample.validImage.value
    ensures r.Success? && sample.validImage.None? ==>
              CountTrue(r.value.validImage) == |r.value.validImage| == CountSome(sample.images)
    ensures sample.Sample? && ResolveMetadata(sample, env).Some? &&
            RecordInvariant(Parsed(sample.images, sample.texts, ResolveMetadata(sample, env).value,
                                   if sample.validImage.Some? then sample.validImage.value else DefaultValid(sample.images)))
            ==> r.Success?
  {
    if sample.Unshaped? then Failure(NotARecord)
    else match ResolveMetadata(sample, env)
    case None => Failure(MetadataNotList)
    case Some(meta) =>
      var valid := if sample.validImage.Some? then sample.validImage.value else DefaultValid(sample.images);
      if |sample.images| != |sample.texts| then Failure(LengthMismatch)
      else if !(CountSome(sample.images) == CountNone(sample.texts) == |valid|) then Failure(CountMismatch)
      else if !ZipNoneAgree(sample.images, meta) then Failure(MetadataMismatch)
      else
        CountTrueAllTrue(CountSome(sample.images));
        Success(Parsed(sample.images, sample.texts, meta, valid))
  }

  /** Without a `metadata` field the `None`-agreement check cannot fail:
      the default metadata is built from the images themselves. */
  lemma {:induction false} DefaultMetadataAlwaysAgrees(sample: Sample, env: Env)
    requires sample.Sample? && sample.metadata.MetaAbsent?
    requires |sample.images| == |sample.texts|
    requires CountSome(sample.images) == CountNone(sample.texts)
    requires sample.validImage.Some? ==> |sample.validImage.value| == CountSome(sample.images)
    ensures ParseSample(sample, env).Success?
  {
  }

  // ---------------------------------------------------------------- image paths

  /** `os.path.join(root, name)`. */
  function JoinPath(root: string, name: string): string
  {
    if |name| > 0 && name[0] == '/' then name
    else if root == [] || root[|root| - 1] == '/' then root + name
    else root + "/" + name
  }

  /** One path per non-`None` image, in order: the image at `i` owns
      path number `CountSome(images[..i])`. */
  function PathsOf(images: seq<Option<string>>, env: Env): (p: seq<string>)
    ensures |p| == CountSome(images)
    ensures forall i :: 0 <= i < |images| && images[i].Some? ==>
              CountSome(images[..i]) < |p| && p[CountSome(images[..i])] == JoinPath(env.imageRoot, env.sha256(images[i].value))
  {
    if images == [] then []
    else
      var init, last := images[..|images| - 1], images[|images| - 1];
      assert forall i :: 0 <= i < |images| - 1 ==> images[..i] == init[..i] && images[i] == init[i];
      PathsOf(init, env) + (if last.Some? then [JoinPath(env.imageRoot, env.sha256(last.value))] else [])
  }

  /** `[join(root, sha256(img)) for img, _ in zip(images, metadata) if img is not None]`. */
  function ImagePaths(images: seq<Option<string>>, meta: seq<Option<string>>, env: Env): (p: seq<string>)
    ensures |p| == CountSome(images[..Min(|images|, |meta|)])
    ensures forall i :: 0 <= i < |images| && i < |meta| && images[i].Some? ==>
              CountSome(images[..i]) < |p| && p[CountSome(images[..i])] == JoinPath(env.imageRoot, env.sha256(images[i].value))
  {
    var zipped := images[..Min(|images|, |meta|)];
    assert forall i :: 0 <= i < |zipped| ==> zipped[..i] == images[..i] && zipped[i] == images[i];
    PathsOf(zipped, env)
  }

  // ---------------------------------------------------------------- image selection

  /** Reference for the selection loop over the first `n` pairs of
      `zip(images, valid_image)`: an image stays valid when it was valid,
      fewer than `maxImages` images were kept before it, and it loads. */
  function SelectPrefix(paths: seq<string>, valid: seq<bool>, loadable: string -> bool, maxImages: int, n: nat): (v: seq<bool>)
    requires n <= |paths| && n <= |valid|
    ensures |v| == n
  {
    if n == 0 then []
    else
      var pre := SelectPrefix(paths, valid, loadable, maxImages, n - 1);
      pre + [valid[n - 1] && CountTrue(pre) < maxImages && loadable(paths[n - 1])]
  }

  /** `valid_image` after the selection loop (entries past the zip are untouched). */
  function SelectionMask(paths: seq<string>, valid: seq<bool>, loadable: string -> bool, maxImages: int): (v: seq<bool>)
    ensures |v| == |valid|
  {
    var m := Min(|paths|, |valid|);
    SelectPrefix(paths, valid, loadable, maxImages, m) + valid[m..]
  }

  /** The paths whose mask entry is true, in order (`loaded_images`). */
  function Chosen(paths: seq<string>, mask: seq<bool>, n: nat): (c: seq<string>)
    requires n <= |paths| && n <= |mask|
    ensures |c| == CountTrue(mask[..n])
  {
    if n == 0 then []
    else
      assert mask[..n][..n - 1] == mask[..n - 1];
      Chosen(paths, mask, n - 1) + (if mask[n - 1] then [paths[n - 1]] else [])
  }

  lemma {:induction false} SelectPrefixIsPrefix(paths: seq<string>, valid: seq<bool>, loadable: string -> bool, maxImages: int, n: nat, j: nat)
    requires j <= n <= |paths| && n <= |valid|
    ensures SelectPrefix(paths, valid, loadable, maxImages, n)[..j] == SelectPrefix(paths, valid, loadable, maxImages, j)
    decreases n - j
  {
    if j < n {
      var v := SelectPrefix(paths, valid, loadable, maxImages, n);
      var pre := SelectPrefix(paths, valid, loadable, maxImages, n - 1);
      assert v[..n - 1] == pre;
      SelectPrefixIsPrefix(paths, valid, loadable, maxImages, n - 1, j);
      assert v[..j] == v[..n - 1][..j];
    } else {
      assert SelectPrefix(paths, valid, loadable, maxImages, n)[..j] == SelectPrefix(paths, valid, loadable, maxImages, n);
    }
  }

  lemma {:induction false} SelectPrefixBound(paths: seq<string>, valid: seq<bool>, loadable: string -> bool, maxImages: int, n: nat)
    requires n <= |paths| && n <= |valid| && maxImages >= 0
    ensures CountTrue(SelectPrefix(paths, valid, loadable, maxImages, n)) <= maxImages
  {
    if n > 0 {
      var pre := SelectPrefix(paths, valid, loadable, maxImages, n - 1);
      var b := valid[n - 1] && CountTrue(pre) < maxImages && loadable(paths[n - 1]);
      SelectPrefixBound(paths, valid, loadable, maxImages, n - 1);
      CountTrueAppend(pre, b);
    }
  }

  /** The selection rule, entry by entry: an entry is kept iff it was
      valid, fewer than `maxImages` entries before it were kept, and its
      image loads. Hence a `False` entry stays `False`, and at most
      `maxImages` entries are kept. */
  lemma {:induction false} SelectPrefixSpec(paths: seq<string>, valid: seq<bool>, loadable: string -> bool, maxImages: int, n: nat)
    requires n <= |paths| && n <= |valid|
    ensures SelectionRule(paths, valid, loadable, maxImages, SelectPrefix(paths, valid, loadable, maxImages, n))
    ensures forall j :: 0 <= j < n && !valid[j] ==> !SelectPrefix(paths, valid, loadable, maxImages, n)[j]
    ensures maxImages >= 0 ==> CountTrue(SelectPrefix(paths, valid, loadable, maxImages, n)) <= maxImages
  {
    var v := SelectPrefix(paths, valid, loadable, maxImages, n);
    forall j | 0 <= j < n
      ensures v[j] == (valid[j] && CountTrue(v[..j]) < maxImages && loadable(paths[j]))
    {
      SelectPrefixEntry(paths, valid, loadable, maxImages, n, j);
    }
    if maxImages >= 0 {
      SelectPrefixBound(paths, valid, loadable, maxImages, n);
    }
  }

  lemma {:induction false} SelectPrefixEntry(paths: seq<string>, valid: seq<bool>, loadable: string -> bool, maxImages: int, n: nat, j: nat)
    requires j < n <= |paths| && n <= |valid|
    ensures var v := SelectPrefix(paths, valid, loadable, maxImages, n);
            v[j] == (valid[j] && CountTrue(v[..j]) < maxImages && loadable(paths[j]))
  {
    var v := SelectPrefix(paths, valid, loadable, maxImages, n);
    var pre := SelectPrefix(paths, valid, loadable, maxImages, j);
    SelectPrefixIsPrefix(paths, valid, loadable, maxImages, n, j + 1);
    SelectPrefixIsPrefix(paths, valid, loadable, maxImages, n, j);
    assert v[..j + 1] == pre + [valid[j] && CountTrue(pre) < maxImages && loadable(paths[j])];
    assert v[j] == v[..j + 1][j];
  }

  /** Entry `j` of the mask `v` is kept iff it was valid, fewer than
      `maxImages` entries before it were kept, and its image loads. */
  predicate SelectionRule(paths: seq<string>, valid: seq<bool>, loadable: string -> bool, maxImages: int, v: seq<bool>)
    requires |v| <= |paths| && |v| <= |valid|
  {
    forall j :: 0 <= j < |v| ==> v[j] == (valid[j] && CountTrue(v[..j]) < maxImages && loadable(paths[j]))
  }

  /** The selection loop of `getitem`; `valid_image` is updated in place
      and the loaded images are collected. */
  method SelectImages(paths: seq<string>, valid: seq<bool>, loadable: string -> bool, maxImages: int)
    returns (loaded: seq<string>, newValid: seq<bool>)
    ensures newValid == SelectionMask(paths, valid, loadable, maxImages)
    ensures loaded == Chosen(paths, newValid, Min(|paths|, |valid|))
    ensures |loaded| == CountTrue(newValid[..Min(|paths|, |valid|)]) <= Min(|paths|, |valid|)
  {
    var m := Min(|paths|, |valid|);
    newValid := valid;
    loaded := [];
    var validCount := 0;
    for idx := 0 to m
      invariant |newValid| == |valid|
      invariant newValid[..idx] == SelectPrefix(paths, valid, loadable, maxImages, idx)
      invariant newValid[idx..] == valid[idx..]
      invariant loaded == Chosen(paths, newValid, idx)
      invariant validCount == |loaded|
    {
      ghost var before := newValid;
      assert validCount == CountTrue(newValid[..idx]);
      var keep := SelectEntry(paths[idx], newValid[idx], validCount, maxImages, loadable);
      newValid := newValid[idx := keep];
      if keep {
        loaded := loaded + [paths[idx]];
        validCount := validCount + 1;
      }
      SelectStep(paths, valid, loadable, maxImages, before, newValid, idx);
    }
    assert newValid == SelectPrefix(paths, valid, loadable, maxImages, m) + valid[m..];
    CountTrueBound(newValid[..m]);
  }

  /** The body of the selection loop for one `(image, valid)` pair: a
      valid image is dropped when `valid_count` has reached the maximum or
      when loading it raises. */
  method SelectEntry(path: string, valid: bool, validCount: int, maxImages: int, loadable: string -> bool)
    returns (keep: bool)
    ensures keep <==> valid && validCount < maxImages && loadable(path)
  {
    keep := valid;
    if valid {
      if validCount >= maxImages {
        keep := false;
      } else if !loadable(path) {
        keep := false;
      }
    }
  }

  /** One turn of the selection loop: deciding entry `idx` by the rule
      extends the selected prefix and the chosen paths by that entry. */
  lemma {:induction false} SelectStep(paths: seq<string>, valid: seq<bool>, loadable: string -> bool, maxImages: int,
                   before: seq<bool>, after: seq<bool>, idx: nat)
    requires idx < |paths| && idx < |valid| && |before| == |after| == |valid|
    requires before[..idx] == SelectPrefix(paths, valid, loadable, maxImages, idx)
    requires before[idx..] == valid[idx..]
    requires forall j :: 0 <= j < |after| && j != idx ==> after[j] == before[j]
    requires after[idx] == (valid[idx] && CountTrue(before[..idx]) < maxImages && loadable(paths[idx]))
    ensures after[..idx + 1] == SelectPrefix(paths, valid, loadable, maxImages, idx + 1)
    ensures after[idx + 1..] == valid[idx + 1..]
    ensures Chosen(paths, after, idx + 1) == Chosen(paths, before, idx) + (if after[idx] then [paths[idx]] else [])
  {
    assert after[..idx + 1] == before[..idx] + [after[idx]];
    assert after[..idx] == before[..idx];
    assert forall j :: idx + 1 <= j < |after| ==> after[j] == before[j] == valid[j];
    ChosenPrefix(paths, before, after, idx);
  }

  lemma {:induction false} ChosenPrefix(paths: seq<string>, a: seq<bool>, b: seq<bool>, n: nat)
    requires n <= |paths| && n <= |a| && n <= |b| && a[..n] == b[..n]
    ensures Chosen(paths, a, n) == Chosen(paths, b, n)
  {
    if n > 0 {
      assert a[..n - 1] == a[..n][..n - 1];
      assert b[..n - 1] == b[..n][..n - 1];
      assert a[n - 1] == a[..n][n - 1];
      assert b[n - 1] == b[..n][n - 1];
      ChosenPrefix(paths, a, b, n - 1);
    }
  }

  // ---------------------------------------------------------------- placeholders

  /** Reference for the placeholder loop: the `None` text slot `i` belongs
      to image number `CountNone(texts[..i])`, and becomes `<image>` iff
      that image is still valid. */
  function Spliced(texts: seq<Option<string>>, valid: seq<bool>): (out: seq<Option<string>>)
    requires CountNone(texts) <= |valid|
    ensures |out| == |texts|
  {
    seq(|texts|, i requires 0 <= i < |texts| =>
      if texts[i].None? && valid[NoneRank(texts, i)] then Some(ImageTag) else texts[i])
  }

  /** The image number of slot `i`, when `texts[i]` is `None`. */
  function NoneRank(texts: seq<Option<string>>, i: nat): (k: nat)
    requires i < |texts|
    ensures texts[i].None? ==> k < CountNone(texts)
  {
    CountNonePrefix(texts, i);
    CountNone(texts[..i])
  }

  lemma {:induction false} CountNonePrefix<T>(s: seq<Option<T>>, i: nat)
    requires i < |s|
    ensures CountNone(s[..i]) + (if s[i].None? then 1 else 0) <= CountNone(s)
    decreases |s| - i
  {
    assert s[..i + 1] == s[..i] + [s[i]];
    CountNoneAppend(s[..i], s[i]);
    if i + 1 < |s| {
      CountNonePrefix(s, i + 1);
      CountNoneMonotone(s[..i + 1], s[i + 1]);
    } else {
      assert s[..i + 1] == s;
    }
  }

  lemma {:induction false} CountNoneMonotone<T>(s: seq<Option<T>>, x: Option<T>)
    ensures CountNone(s) <= CountNone(s + [x])
  {
    CountNoneAppend(s, x);
  }

  /** The loop that writes `<image>` into the empty text slots (`texts` is updated in place). */
  method SpliceImagePlaceholders(texts: seq<Option<string>>, valid: seq<bool>) returns (out: seq<Option<string>>)
    requires CountNone(texts) <= |valid|
    ensures out == Spliced(texts, valid)
  {
    out := texts;
    var imageIdx := 0;
    ghost var target := Spliced(texts, valid);
    for i := 0 to |texts|
      invariant |out| == |texts|
      invariant imageIdx == CountNone(texts[..i])
      invariant forall j :: 0 <= j < i ==> out[j] == target[j]
      invariant forall j :: i <= j < |texts| ==> out[j] == texts[j]
    {
      SpliceStep(texts, valid, i);
      if out[i].None? {
        if valid[imageIdx] {
          out := out[i := Some(ImageTag)];
        }
        imageIdx := imageIdx + 1;
      }
    }
  }

  /** Slot `i` of the placeholder loop: the image counter advances past
      a `None` slot, which takes image number `CountNone(texts[..i])`. */
  lemma {:induction false} SpliceStep(texts: seq<Option<string>>, valid: seq<bool>, i: nat)
    requires CountNone(texts) <= |valid| && i < |texts|
    ensures CountNone(texts[..i + 1]) == CountNone(texts[..i]) + (if texts[i].None? then 1 else 0)
    ensures texts[i].None? ==> CountNone(texts[..i]) < |valid|
    ensures Spliced(texts, valid)[i]
            == if texts[i].None? && valid[CountNone(texts[..i])] then Some(ImageTag) else texts[i]
  {
    assert texts[..i + 1][..i] == texts[..i];
    SplicedAt(texts, valid, i);
  }

  lemma {:induction false} SplicedAt(texts: seq<Option<string>>, valid: seq<bool>, i: nat)
    requires CountNone(texts) <= |valid| && i < |texts|
    ensures texts[i].None? ==> CountNone(texts[..i]) < |valid|
    ensures Spliced(texts, valid)[i]
            == if texts[i].None? && valid[CountNone(texts[..i])] then Some(ImageTag) else texts[i]
  {
    CountNonePrefix(texts, i);
    var k := NoneRank(texts, i);
    assert Spliced(texts, valid)[i] == if texts[i].None? && valid[k] then Some(ImageTag) else texts[i];
  }

  // ---------------------------------------------------------------- text

  /** `[t for t in texts if t]`: drops `None` and empty strings. */
  function NonEmptyTexts(texts: seq<Option<string>>): (r: seq<string>)
    ensures |r| <= |texts|
    ensures forall i :: 0 <= i < |r| ==> r[i] != []
  {
    if texts == [] then []
    else
      var last := texts[|texts| - 1];
      NonEmptyTexts(texts[..|texts| - 1]) + (if last.Some? && last.value != [] then [last.value] else [])
  }

  /** Exactly the non-empty texts are kept. */
  lemma {:induction false} NonEmptyTextsExact(texts: seq<Option<string>>)
    ensures forall x :: x in NonEmptyTexts(texts) <==> Some(x) in texts && x != []
  {
    if texts != [] {
      var init, last := texts[..|texts| - 1], texts[|texts| - 1];
      NonEmptyTextsExact(init);
      assert texts == init + [last];
    }
  }

  /** The filter commutes with concatenation, so the kept texts keep
      their input order. */
  lemma {:induction false} NonEmptyTextsConcat(a: seq<Option<string>>, b: seq<Option<string>>)
    ensures NonEmptyTexts(a + b) == NonEmptyTexts(a) + NonEmptyTexts(b)
    decreases |b|
  {
    if b == [] {
      assert a + b == a;
    } else {
      var b' := b[..|b| - 1];
      assert (a + b)[..|a + b| - 1] == a + b';
      NonEmptyTextsConcat(a, b');
    }
  }

  /** `sep.join(parts)`. */
  function Join(parts: seq<string>, sep: string): string
  {
    if parts == [] then []
    else if |parts| == 1 then parts[0]
    else Join(parts[..|parts| - 1], sep) + sep + parts[|parts| - 1]
  }

  /** `pat` starts at position `i` of `s`. */
  predicate MatchesAt(s: string, pat: string, i: int)
  {
    0 <= i && i + |pat| <= |s| && s[i..i + |pat|] == pat
  }

  /** `pat in s`. */
  predicate Occurs(s: string, pat: string)
  {
    exists i :: 0 <= i <= |s| - |pat| && MatchesAt(s, pat, i)
  }

  /** `s.replace(pat, rep, count)`, left to right, non-overlapping; a
      negative `count` replaces every occurrence. */
  function Replace(s: string, pat: string, rep: string, count: int): string
    requires |pat| > 0
    decreases |s|
  {
    if count == 0 || |s| < |pat| then s
    else if s[..|pat|] == pat then rep + Replace(s[|pat|..], pat, rep, if count > 0 then count - 1 else count)
    else [s[0]] + Replace(s[1..], pat, rep, count)
  }

  /** A pattern that does not occur is never replaced. */
  lemma {:induction false} ReplaceAbsent(s: string, pat: string, rep: string, count: int)
    requires |pat| > 0 && !Occurs(s, pat)
    ensures Replace(s, pat, rep, count) == s
    decreases |s|
  {
    if count != 0 && |s| >= |pat| {
      assert !MatchesAt(s, pat, 0);
      assert s[..|pat|] != pat by { assert s[0..0 + |pat|] == s[..|pat|]; }
      forall i | MatchesAt(s[1..], pat, i) ensures MatchesAt(s, pat, i + 1) {
        assert s[i + 1..i + 1 + |pat|] == s[1..][i..i + |pat|];
      }
      ReplaceAbsent(s[1..], pat, rep, count);
    }
  }

  /** `s.count(pat)`: the occurrences of `pat`, non-overlapping, left to right. */
  function Occurrences(s: string, pat: string): nat
    requires |pat| > 0
    decreases |s|
  {
    if |s| < |pat| then 0
    else if s[..|pat|] == pat then 1 + Occurrences(s[|pat|..], pat)
    else Occurrences(s[1..], pat)
  }

  /** The pieces of `s` around the occurrences of `pat` that
      `s.replace(pat, _, count)` rewrites; the last piece is the
      untouched rest. */
  function Pieces(s: string, pat: string, count: int): (p: seq<string>)
    requires |pat| > 0
    ensures |p| > 0
    decreases |s|
  {
    if count == 0 || |s| < |pat| then [s]
    else if s[..|pat|] == pat then [[]] + Pieces(s[|pat|..], pat, if count > 0 then count - 1 else count)
    else
      var rest := Pieces(s[1..], pat, count);
      [[s[0]] + rest[0]] + rest[1..]
  }

  /** Joining from the front. */
  lemma {:induction false} JoinCons(a: string, rest: seq<string>, sep: string)
    requires |rest| > 0
    ensures Join([a] + rest, sep) == a + sep + Join(rest, sep)
    decreases |rest|
  {
    var parts := [a] + rest;
    if |rest| == 1 {
      assert parts[..1] == [a];
    } else {
      assert parts[..|parts| - 1] == [a] + rest[..|rest| - 1];
      JoinCons(a, rest[..|rest| - 1], sep);
    }
  }

  /** Prefixing a character to the first piece prefixes it to the join. */
  lemma {:induction false} JoinConsFirst(c: char, rest: seq<string>, sep: string)
    requires |rest| > 0
    ensures Join([[c] + rest[0]] + rest[1..], sep) == [c] + Join(rest, sep)
  {
    if |rest| > 1 {
      JoinCons([c] + rest[0], rest[1..], sep);
      JoinCons(rest[0], rest[1..], sep);
      assert [rest[0]] + rest[1..] == rest;
    }
  }

  /** `s.replace(pat, rep, count)` puts `rep` between the pieces. */
  lemma {:induction false} JoinPieces(s: string, pat: string, rep: string, count: int)
    requires |pat| > 0
    ensures Join(Pieces(s, pat, count), rep) == Replace(s, pat, rep, count)
    decreases |s|
  {
    if count != 0 && |s| >= |pat| {
      if s[..|pat|] == pat {
        var c' := if count > 0 then count - 1 else count;
        var rest := Pieces(s[|pat|..], pat, c');
        assert Pieces(s, pat, count) == [[]] + rest;
        assert Replace(s, pat, rep, count) == rep + Replace(s[|pat|..], pat, rep, c');
        JoinPieces(s[|pat|..], pat, rep, c');
        JoinCons([], rest, rep);
        assert Join([[]] + rest, rep) == rep + Join(rest, rep);
      } else {
        var rest := Pieces(s[1..], pat, count);
        assert Pieces(s, pat, count) == [[s[0]] + rest[0]] + rest[1..];
        assert Replace(s, pat, rep, count) == [s[0]] + Replace(s[1..], pat, rep, count);
        JoinPieces(s[1..], pat, rep, count);
        JoinConsFirst(s[0], rest, rep);
      }
    } else {
      assert Pieces(s, pat, count) == [s];
      assert Replace(s, pat, rep, count) == s;
    }
  }

  /** Replacing a pattern by itself changes nothing. */
  lemma {:induction false} ReplaceSelf(s: string, pat: string, count: int)
    requires |pat| > 0
    ensures Replace(s, pat, pat, count) == s
    decreases |s|
  {
    if count != 0 && |s| >= |pat| {
      if s[..|pat|] == pat {
        ReplaceSelf(s[|pat|..], pat, if count > 0 then count - 1 else count);
        assert s == s[..|pat|] + s[|pat|..];
      } else {
        ReplaceSelf(s[1..], pat, count);
        assert s == [s[0]] + s[1..];
      }
    }
  }

  /** `min(count, s.count(pat))` occurrences are rewritten (all of them
      for a negative count), and the last piece keeps the others. */
  lemma {:induction false} PiecesCount(s: string, pat: string, count: int)
    requires |pat| > 0
    ensures |Pieces(s, pat, count)| - 1 == if count < 0 then Occurrences(s, pat) else Min(count, Occurrences(s, pat))
    ensures var p := Pieces(s, pat, count); Occurrences(p[|p| - 1], pat) + |p| - 1 == Occurrences(s, pat)
    decreases |s|
  {
    var p := Pieces(s, pat, count);
    if count != 0 && |s| >= |pat| {
      if s[..|pat|] == pat {
        var c' := if count > 0 then count - 1 else count;
        PiecesCount(s[|pat|..], pat, c');
        assert p[|p| - 1] == Pieces(s[|pat|..], pat, c')[|p| - 2];
      } else {
        var rest := Pieces(s[1..], pat, count);
        PiecesCount(s[1..], pat, count);
        if |rest| == 1 {
          JoinPieces(s[1..], pat, pat, count);
          ReplaceSelf(s[1..], pat, count);
          assert p[0] == s by { assert s == [s[0]] + s[1..]; }
        } else {
          assert p[|p| - 1] == rest[|rest| - 1];
        }
      }
    }
  }

  /** The rewritten occurrences are the leftmost ones: no piece before
      the last holds `pat`. */
  lemma {:induction false} PiecesAvoid(s: string, pat: string, count: int)
    requires |pat| > 0
    ensures forall j :: 0 <= j < |Pieces(s, pat, count)| - 1 ==> !Occurs(Pieces(s, pat, count)[j], pat)
    decreases |s|
  {
    var p := Pieces(s, pat, count);
    if count != 0 && |s| >= |pat| {
      if s[..|pat|] == pat {
        var c' := if count > 0 then count - 1 else count;
        var rest := Pieces(s[|pat|..], pat, c');
        PiecesAvoid(s[|pat|..], pat, c');
        assert p == [[]] + rest;
        forall j | 0 <= j < |p| - 1 ensures !Occurs(p[j], pat) {
          if j > 0 {
            assert p[j] == rest[j - 1];
            assert !Occurs(rest[j - 1], pat);
          } else {
            assert |p[j]| < |pat|;
            assert !Occurs(p[j], pat);
          }
        }
      } else {
        var rest := Pieces(s[1..], pat, count);
        assert p == [[s[0]] + rest[0]] + rest[1..];
        PiecesAvoid(s[1..], pat, count);
        forall j | 0 <= j < |p| - 1 ensures !Occurs(p[j], pat) {
          if j > 0 {
            assert p[j] == rest[j];
          } else {
            JoinPieces(s[1..], pat, pat, count);
            ReplaceSelf(s[1..], pat, count);
            HeadPieceAvoids(s, pat, rest);
          }
        }
      }
    }
  }

  /** A first piece that starts where `pat` does not, and continues with
      a piece free of `pat`, is free of `pat`. */
  lemma {:induction false} HeadPieceAvoids(s: string, pat: string, rest: seq<string>)
    requires |pat| > 0 && |s| >= |pat| && s[..|pat|] != pat
    requires |rest| > 1 && Join(rest, pat) == s[1..] && !Occurs(rest[0], pat)
    ensures !Occurs([s[0]] + rest[0], pat)
  {
    JoinCons(rest[0], rest[1..], pat);
    assert [rest[0]] + rest[1..] == rest;
    var a := [s[0]] + rest[0];
    assert s == a + pat + Join(rest[1..], pat) by { assert s == [s[0]] + s[1..]; }
    forall i | 0 <= i <= |a| - |pat| ensures !MatchesAt(a, pat, i) {
      if i == 0 {
        assert a[..|pat|] == s[..|pat|];
        assert a[0..0 + |pat|] == a[..|pat|];
      } else {
        assert a[i..i + |pat|] == rest[0][i - 1..i - 1 + |pat|];
        assert !MatchesAt(rest[0], pat, i - 1);
      }
    }
  }

  /** `s.replace(pat, rep, count)` for every text: `s` is the pieces
      joined by `pat`, the result is the same pieces joined by `rep`;
      exactly `min(count, s.count(pat))` occurrences are rewritten (every
      one for a negative count), the leftmost ones, and the rest stay. */
  lemma {:induction false} ReplacePieces(s: string, pat: string, rep: string, count: int)
    requires |pat| > 0
    ensures var p := Pieces(s, pat, count);
            && Join(p, pat) == s
            && Join(p, rep) == Replace(s, pat, rep, count)
            && |p| - 1 == (if count < 0 then Occurrences(s, pat) else Min(count, Occurrences(s, pat)))
            && Occurrences(p[|p| - 1], pat) + |p| - 1 == Occurrences(s, pat)
            && forall j :: 0 <= j < |p| - 1 ==> !Occurs(p[j], pat)
  {
    JoinPieces(s, pat, pat, count);
    ReplaceSelf(s, pat, count);
    JoinPieces(s, pat, rep, count);
    PiecesCount(s, pat, count);
    PiecesAvoid(s, pat, count);
  }

  /** `c` does not appear in `s`. */
  predicate Avoids(s: string, c: char)
  {
    forall k :: 0 <= k < |s| ==> s[k] != c
  }

  /** A pattern with a character that never appears in `s` does not occur in it. */
  lemma {:induction false} CharAbsent(s: string, pat: string, j: nat)
    requires j < |pat| && Avoids(s, pat[j])
    ensures !Occurs(s, pat)
  {
    forall i | 0 <= i <= |s| - |pat| ensures !MatchesAt(s, pat, i) {
      assert s[i..i + |pat|][j] == s[i + j];
    }
  }

  /** Joining texts that avoid `c` with a separator that avoids `c` gives
      a text that avoids `c`. */
  lemma {:induction false} JoinAvoids(parts: seq<string>, sep: string, c: char)
    requires Avoids(sep, c) && forall i :: 0 <= i < |parts| ==> Avoids(parts[i], c)
    ensures Avoids(Join(parts, sep), c)
  {
    if |parts| > 1 {
      JoinAvoids(parts[..|parts| - 1], sep, c);
    }
  }

  /** The placeholder block for one image. */
  function ImageTokenBlock(env: Env, numImageToken: nat): string
  {
    env.startToken + Repeat(env.contextToken, numImageToken) + env.endToken
  }

  function Repeat(s: string, n: nat): string
  {
    if n == 0 then [] else Repeat(s, n - 1) + s
  }

  /** The text handed to the tokenizer: join the non-empty texts with a
      blank line, drop the blank lines around `<image>`, then replace the
      first `numImages` occurrences of `<image>` by the placeholder block. */
  function RenderText(texts: seq<Option<string>>, numImages: nat, env: Env, numImageToken: nat): string
  {
    Replace(CleanedText(texts), ImageTag, ImageTokenBlock(env, numImageToken), numImages)
  }

  /** The joined text after the format cleanup, before the placeholders. */
  function CleanedText(texts: seq<Option<string>>): string
  {
    var joined := Join(NonEmptyTexts(texts), Separator);
    Replace(Replace(joined, ImageTag + Separator, ImageTag, -1), Separator + ImageTag, ImageTag, -1)
  }

  /** For every record: the rendered text is the cleaned text with its
      first `min(numImages, count of <image>)` tags, the leftmost ones,
      each replaced by one placeholder block, and nothing else changed;
      so a cleaned text with at least `numImages` tags gets exactly
      `numImages` blocks. */
  lemma {:induction false} RenderTextPieces(texts: seq<Option<string>>, numImages: nat, env: Env, numImageToken: nat)
    ensures var cleaned := CleanedText(texts);
            var p := Pieces(cleaned, ImageTag, numImages);
            && Join(p, ImageTag) == cleaned
            && RenderText(texts, numImages, env, numImageToken) == Join(p, ImageTokenBlock(env, numImageToken))
            && |p| - 1 == Min(numImages, Occurrences(cleaned, ImageTag))
            && (numImages <= Occurrences(cleaned, ImageTag) ==> |p| - 1 == numImages)
            && Occurrences(p[|p| - 1], ImageTag) + |p| - 1 == Occurrences(cleaned, ImageTag)
            && forall j :: 0 <= j < |p| - 1 ==> !Occurs(p[j], ImageTag)
  {
    ReplacePieces(CleanedText(texts), ImageTag, ImageTokenBlock(env, numImageToken), numImages);
  }

  lemma {:induction false} JoinImageAndCaption()
    ensures Join(NonEmptyTexts([Some(ImageTag), Some("caption")]), Separator) == ImageTag + Separator + "caption"
  {
    var texts := [Some(ImageTag), Some("caption")];
    assert texts[..1] == [Some(ImageTag)];
    assert texts[..1][..0] == [];
    assert NonEmptyTexts(texts[..1]) == [ImageTag];
    assert NonEmptyTexts(texts) == [ImageTag, "caption"];
    assert [ImageTag, "caption"][..1] == [ImageTag];
  }

  lemma {:induction false} CleanupImageAndCaption()
    ensures Replace(Replace(ImageTag + Separator + "caption", ImageTag + Separator, ImageTag, -1), Separator + ImageTag, ImageTag, -1)
            == ImageTag + "caption"
  {
    var s := ImageTag + Separator + "caption";
    assert s[..|ImageTag + Separator|] == ImageTag + Separator;
    assert s[|ImageTag + Separator|..] == "caption";
    assert Replace(s, ImageTag + Separator, ImageTag, -1) == ImageTag + "caption";
    CharAbsent(ImageTag + "caption", Separator + ImageTag, 0);
    ReplaceAbsent(ImageTag + "caption", Separator + ImageTag, ImageTag, -1);
  }

  /** The worked example of a record with `texts = ["<image>", "caption"]`
      whose single image is kept: the placeholder block comes first and the
      caption follows with no separator. */
  lemma {:induction false} RenderOneImageThenCaption(env: Env, numImageToken: nat)
    ensures RenderText([Some(ImageTag), Some("caption")], 1, env, numImageToken)
            == ImageTokenBlock(env, numImageToken) + "caption"
  {
    JoinImageAndCaption();
    CleanupImageAndCaption();
    var block := ImageTokenBlock(env, numImageToken);
    var s := ImageTag + "caption";
    assert s[..|ImageTag|] == ImageTag && s[|ImageTag|..] == "caption";
    assert Replace(s, ImageTag, block, 1) == block + Replace("caption", ImageTag, block, 0);
  }

  /** For every record whose texts hold no `<` (so no `<image>` tag),
      neither the cleanup nor the placeholder replacement changes anything,
      whatever the number of images: the tokenizer sees the non-empty texts
      joined by blank lines. */
  lemma {:induction false} RenderTextWithoutTags(texts: seq<Option<string>>, numImages: nat, env: Env, numImageToken: nat)
    requires forall i :: 0 <= i < |texts| && texts[i].Some? ==> Avoids(texts[i].value, '<')
    ensures RenderText(texts, numImages, env, numImageToken) == Join(NonEmptyTexts(texts), Separator)
  {
    var parts := NonEmptyTexts(texts);
    NonEmptyTextsExact(texts);
    forall i | 0 <= i < |parts| ensures Avoids(parts[i], '<') {
      assert parts[i] in parts;
      var j :| 0 <= j < |texts| && texts[j] == Some(parts[i]);
    }
    var joined := Join(parts, Separator);
    JoinAvoids(parts, Separator, '<');
    assert (ImageTag + Separator)[0] == '<' && (Separator + ImageTag)[2] == '<' && ImageTag[0] == '<';
    CharAbsent(joined, ImageTag + Separator, 0);
    ReplaceAbsent(joined, ImageTag + Separator, ImageTag, -1);
    CharAbsent(joined, Separator + ImageTag, 2);
    ReplaceAbsent(joined, Separator + ImageTag, ImageTag, -1);
    CharAbsent(joined, ImageTag, 0);
    ReplaceAbsent(joined, ImageTag, ImageTokenBlock(env, numImageToken), numImages);
  }

  // ---------------------------------------------------------------- labels

  function MaskId(labels: seq<int>, id: int): (r: seq<int>)
    ensures |r| == |labels|
    ensures forall i :: 0 <= i < |r| ==> r[i] == (if labels[i] == id then IgnoreIndex else labels[i])
  {
    seq(|labels|, i requires 0 <= i < |labels| => if labels[i] == id then IgnoreIndex else labels[i])
  }

  /** `labels[labels == id] = -100` for the start, end and context ids in turn. */
  function MaskLabels(ids: seq<int>, env: Env): (labels: seq<int>)
    ensures |labels| == |ids|
    ensures forall i :: 0 <= i < |ids| ==>
              labels[i] == (if ids[i] in {env.startId, env.endId, env.contextId} then IgnoreIndex else ids[i])
  {
    MaskId(MaskId(MaskId(ids, env.startId), env.endId), env.contextId)
  }

  /** `num_image_token * num_patches`, the number of context tokens the
      rendered text holds: one run of `numImageToken` per patch. */
  function ImageTokenTotal(numImageToken: nat, numPatches: nat): nat
  {
    if numPatches == 0 then 0 else ImageTokenTotal(numImageToken, numPatches - 1) + numImageToken
  }

  lemma {:induction false} ImageTokenTotalIsProduct(numImageToken: nat, numPatches: nat)
    ensures ImageTokenTotal(numImageToken, numPatches) == numImageToken * numPatches
  {
    if numPatches > 0 {
      ImageTokenTotalIsProduct(numImageToken, numPatches - 1);
      assert numImageToken * numPatches == numImageToken * (numPatches - 1) + numImageToken;
    }
  }

  /** What a successfully assembled sample satisfies. */
  predicate WellFormedBundle(b: Bundle, env: Env, maxImages: nat, numImageToken: nat)
  {
    && 1 <= b.numPatches <= maxImages
    && TokenFields(b, env, numImageToken)
  }

  /** The token-level fields of a bundle: labels mask the three image
      tokens, the attention mask is `input_ids != pad`, the context token
      occurs once per image token of every patch, one flag per patch. */
  predicate TokenFields(b: Bundle, env: Env, numImageToken: nat)
  {
    && |b.labels| == |b.inputIds| == |b.attentionMask|
    && (forall i :: 0 <= i < |b.inputIds| ==>
          b.labels[i] == (if b.inputIds[i] in {env.startId, env.endId, env.contextId} then IgnoreIndex else b.inputIds[i]))
    && (forall i :: 0 <= i < |b.inputIds| ==> b.attentionMask[i] == (b.inputIds[i] != env.padId))
    && CountEq(b.inputIds, env.contextId) == ImageTokenTotal(numImageToken, b.numPatches)
    && b.imageFlags == seq(b.numPatches, _ => 1)
  }

  /** The selection mask of a parsed record. */
  function KeptMask(p: Parsed, env: Env, maxImages: int): seq<bool>
  {
    SelectionMask(ImagePaths(p.images, p.metadata, env), p.validImage, env.loadable, maxImages)
  }

  /** The images `getitem` loads for a parsed record, in order. */
  function KeptImages(p: Parsed, env: Env, maxImages: int): seq<string>
  {
    var paths := ImagePaths(p.images, p.metadata, env);
    var mask := KeptMask(p, env, maxImages);
    Chosen(paths, mask, Min(|paths|, |mask|))
  }

  /** The tail of `getitem`: render the text, tokenize it, reject it when
      truncation cut image tokens, then mask labels and padding. */
  function Tokenize(texts: seq<Option<string>>, numPatches: nat, env: Env, numImageToken: nat): (r: Result<Bundle, SampleError>)
    ensures r.Failure? ==> r.error == ImageTokensTruncated
    ensures r.Success? <==>
              CountEq(env.tokenize(RenderText(texts, numPatches, env, numImageToken)), env.contextId)
                == ImageTokenTotal(numImageToken, numPatches)
    ensures r.Success? ==> && r.value.numPatches == numPatches
                           && r.value.inputIds == env.tokenize(RenderText(texts, numPatches, env, numImageToken))
                           && TokenFields(r.value, env, numImageToken)
  {
    var ids := env.tokenize(RenderText(texts, numPatches, env, numImageToken));
    ImageTokenTotalIsProduct(numImageToken, numPatches);
    if CountEq(ids, env.contextId) != numImageToken * numPatches then Failure(ImageTokensTruncated)
    else
      var attention := seq(|ids|, i requires 0 <= i < |ids| => ids[i] != env.padId);
      Success(Bundle(ids, MaskLabels(ids, env), attention, numPatches, seq(numPatches, _ => 1)))
  }

  /** What `getitem` returns or raises for a loaded record: the parse
      error; `NoValidImage` exactly when no image was loaded or no entry
      stays valid; otherwise the tokenized result for the loaded images. */
  function Assembled(sample: Sample, env: Env, maxImages: nat, numImageToken: nat): (r: Result<Bundle, SampleError>)
    ensures ParseSample(sample, env).Failure? ==> r == Failure(ParseSample(sample, env).error)
    ensures r == Failure(NoValidImage) <==>
              && ParseSample(sample, env).Success?
              && (|KeptImages(ParseSample(sample, env).value, env, maxImages)| == 0
                  || CountTrue(KeptMask(ParseSample(sample, env).value, env, maxImages)) == 0)
    ensures r.Success? ==> WellFormedBundle(r.value, env, maxImages, numImageToken)
    ensures r.Success? ==>
              var p := ParseSample(sample, env).value;
              && r.value.numPatches == |KeptImages(p, env, maxImages)|
              && r.value.inputIds
                 == env.tokenize(RenderText(Spliced(p.texts, KeptMask(p, env, maxImages)), r.value.numPatches, env, numImageToken))
  {
    match ParseSample(sample, env)
    case Failure(e) => Failure(e)
    case Success(p) =>
      var paths := ImagePaths(p.images, p.metadata, env);
      var mask := KeptMask(p, env, maxImages);
      var loaded := KeptImages(p, env, maxImages);
      if |loaded| == 0 || CountTrue(mask) == 0 then Failure(NoValidImage)
      else
        var m := Min(|paths|, |p.validImage|);
        SelectPrefixSpec(paths, p.validImage, env.loadable, maxImages, m);
        assert mask[..m] == SelectPrefix(paths, p.validImage, env.loadable, maxImages, m);
        Tokenize(Spliced(p.texts, mask), |loaded|, env, numImageToken)
  }

  /** `getitem` after `load_data`: parse, select images, splice
      placeholders, render, tokenize, check the image-token count, mask. */
  method Assemble(sample: Sample, env: Env, maxImages: nat, numImageToken: nat) returns (r: Result<Bundle, SampleError>)
    ensures r == Assembled(sample, env, maxImages, numImageToken)
  {
    var parsed := ParseSample(sample, env);
    if parsed.Failure? {
      return Failure(parsed.error);
    }
    var p := parsed.value;
    var paths := ImagePaths(p.images, p.metadata, env);
    var loaded, valid := SelectImages(paths, p.validImage, env.loadable, maxImages);
    if |loaded| == 0 || CountTrue(valid) == 0 {
      return Failure(NoValidImage);
    }
    var texts := SpliceImagePlaceholders(p.texts, valid);
    r := Tokenize(texts, |loaded|, env, numImageToken);
  }
}
