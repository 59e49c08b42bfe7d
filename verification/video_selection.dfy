/** The selection loops of VideoCameraFrameProcessor::InitializeAsync: which
    source group, video profile and record description are chosen, which
    Color sources are kept, and which frame source and format the reader is
    created on. The platform enumerations are given as values. */
module VideoSelection {
  import opened Frames

  /** VideoCameraFrameProcessor::kImageWidth. */
  const IMAGE_WIDTH: int := 640

  datatype MediaDescription = MediaDescription(width: int, height: int)

  /** A known VideoConferencing profile of a group, with its supported record
      media descriptions in enumeration order. */
  datatype VideoProfile = VideoProfile(descriptions: seq<MediaDescription>)

  datatype SourceKind = Color | Depth | Infrared | Custom | Image

  datatype SourceInfo = SourceInfo(id: string, kind: SourceKind)

  /** A MediaFrameSourceGroup, with the profiles FindKnownVideoProfiles
      reports for its Id and its source infos. */
  datatype SourceGroup = SourceGroup(id: string, profiles: seq<VideoProfile>, sourceInfos: seq<SourceInfo>)

  datatype FrameFormat = FrameFormat(width: int, height: int)

  /** Indices of the chosen group, profile and description. */
  datatype ProfileChoice = ProfileChoice(group: nat, profile: nat, description: nat)

  /** Index in the kept Color sources of the chosen source, and of its format. */
  datatype FormatChoice = FormatChoice(source: nat, format: nat)

  // ----- The first entry of the image width ----------------------------------

  /** Scan widths in order and stop at the first equal to the image width. */
  method FindImageWidth(widths: seq<int>) returns (r: Option<nat>)
    ensures r.None? <==> forall k :: 0 <= k < |widths| ==> widths[k] != IMAGE_WIDTH
    ensures r.Some? ==> r.value < |widths| && widths[r.value] == IMAGE_WIDTH
                        && forall k :: 0 <= k < r.value ==> widths[k] != IMAGE_WIDTH
  {
    var k := 0;
    while k < |widths|
      invariant 0 <= k <= |widths|
      invariant forall m :: 0 <= m < k ==> widths[m] != IMAGE_WIDTH
    {
      if widths[k] == IMAGE_WIDTH {
        return Some(k);
      }
      k := k + 1;
    }
    return None;
  }

  function DescriptionWidths(p: VideoProfile): (ws: seq<int>)
    ensures |ws| == |p.descriptions| && forall k :: 0 <= k < |ws| ==> ws[k] == p.descriptions[k].width
  {
    seq(|p.descriptions|, k requires 0 <= k < |p.descriptions| => p.descriptions[k].width)
  }

  function FormatWidths(fs: seq<FrameFormat>): (ws: seq<int>)
    ensures |ws| == |fs| && forall k :: 0 <= k < |ws| ==> ws[k] == fs[k].width
  {
    seq(|fs|, k requires 0 <= k < |fs| => fs[k].width)
  }

  // ----- Group, profile and description ---------------------------------------

  ghost predicate HasImageWidth(p: VideoProfile)
  {
    exists k :: 0 <= k < |p.descriptions| && p.descriptions[k].width == IMAGE_WIDTH
  }

  ghost predicate IsPair(groups: seq<SourceGroup>, g: int, p: int)
  {
    0 <= g < |groups| && 0 <= p < |groups[g].profiles|
  }

  /** (g, p) comes before (gi, pi) in the loops' order. */
  predicate Before(g: int, p: int, gi: int, pi: int)
  {
    g < gi || (g == gi && p < pi)
  }

  /** The choice names a profile with a description of the image width, and
      the first such description of it. */
  ghost predicate FirstMatchIn(groups: seq<SourceGroup>, c: ProfileChoice)
  {
    && IsPair(groups, c.group, c.profile)
    && var descs := groups[c.group].profiles[c.profile].descriptions;
    && c.description < |descs| && descs[c.description].width == IMAGE_WIDTH
    && forall k :: 0 <= k < c.description ==> descs[k].width != IMAGE_WIDTH
  }

  /** sel is what the loops hold after visiting every pair before (gi, pi):
      the last visited pair with a description of the image width. */
  ghost predicate LastMatchBefore(groups: seq<SourceGroup>, sel: Option<ProfileChoice>, gi: int, pi: int)
  {
    && (sel.None? ==> forall g, p :: IsPair(groups, g, p) && Before(g, p, gi, pi) ==> !HasImageWidth(groups[g].profiles[p]))
    && (sel.Some? ==>
          && FirstMatchIn(groups, sel.value)
          && Before(sel.value.group, sel.value.profile, gi, pi)
          && forall g, p :: IsPair(groups, g, p) && Before(g, p, gi, pi) && Before(sel.value.group, sel.value.profile, g, p)
                            ==> !HasImageWidth(groups[g].profiles[p]))
  }

  /** The choice the group/profile loops end with: a first description of
      the image width in a profile after which no visited profile has one. */
  ghost predicate IsChosenProfile(groups: seq<SourceGroup>, c: ProfileChoice)
  {
    && FirstMatchIn(groups, c)
    && forall g, p :: IsPair(groups, g, p) && Before(c.group, c.profile, g, p) ==> !HasImageWidth(groups[g].profiles[p])
  }

  /** At most one choice is the chosen one. */
  lemma ChosenProfileUnique(groups: seq<SourceGroup>, c: ProfileChoice, d: ProfileChoice)
    requires IsChosenProfile(groups, c) && IsChosenProfile(groups, d)
    ensures c == d
  {
    var dDescs := groups[d.group].profiles[d.profile].descriptions;
    var cDescs := groups[c.group].profiles[c.profile].descriptions;
    assert HasImageWidth(groups[d.group].profiles[d.profile]) by {
      assert dDescs[d.description].width == IMAGE_WIDTH;
    }
    assert HasImageWidth(groups[c.group].profiles[c.profile]) by {
      assert cDescs[c.description].width == IMAGE_WIDTH;
    }
  }

  /** The group/profile loops of InitializeAsync: each profile with a
      description of the image width overwrites the choice with its first such
      description (the `break` leaves only the description loop), so the last
      such profile of the last such group wins; None when check_bool fails. */
  method SelectProfile(groups: seq<SourceGroup>) returns (r: Option<ProfileChoice>)
    ensures r.None? <==> forall g, p :: IsPair(groups, g, p) ==> !HasImageWidth(groups[g].profiles[p])
    ensures r.Some? ==> FirstMatchIn(groups, r.value)
    ensures r.Some? ==> forall g, p :: IsPair(groups, g, p) && Before(r.value.group, r.value.profile, g, p)
                                       ==> !HasImageWidth(groups[g].profiles[p])
  {
    r := None;
    var gi := 0;
    while gi < |groups|
      invariant 0 <= gi <= |groups|
      invariant LastMatchBefore(groups, r, gi, 0)
    {
      var profiles := groups[gi].profiles;
      var pi := 0;
      while pi < |profiles|
        invariant 0 <= pi <= |profiles|
        invariant LastMatchBefore(groups, r, gi, pi)
      {
        var d := FindImageWidth(DescriptionWidths(profiles[pi]));
        if d.Some? {
          r := Some(ProfileChoice(gi, pi, d.value));
        } else {
          assert !HasImageWidth(profiles[pi]);
        }
        pi := pi + 1;
      }
      gi := gi + 1;
    }
  }

  // ----- Color sources --------------------------------------------------------

  /** The source infos of kind Color, in order. */
  function ColorSources(infos: seq<SourceInfo>): (r: seq<SourceInfo>)
    ensures |r| <= |infos|
    ensures forall s :: s in r <==> s in infos && s.kind == Color
  {
    if infos == [] then []
    else
      var init := ColorSources(infos[..|infos| - 1]);
      var last := infos[|infos| - 1];
      assert infos == infos[..|infos| - 1] + [last];
      if last.kind == Color then init + [last] else init
  }

  /** The filter of a single info keeps it iff it is a Color source. */
  lemma ColorSourcesSingleton(info: SourceInfo)
    ensures ColorSources([info]) == if info.kind == Color then [info] else []
  {
    assert [info][..0] == [];
  }

  /** The filter distributes over concatenation, so it keeps the Color infos
      in their original order and with their multiplicity. */
  lemma {:induction false} ColorSourcesAppend(a: seq<SourceInfo>, b: seq<SourceInfo>)
    ensures ColorSources(a + b) == ColorSources(a) + ColorSources(b)
    decreases |b|
  {
    if b == [] {
      assert a + b == a;
    } else {
      var init := b[..|b| - 1];
      var last := b[|b| - 1];
      assert (a + b)[..|a + b| - 1] == a + init;
      assert (a + b)[|a + b| - 1] == last;
      ColorSourcesAppend(a, init);
    }
  }

  /** The loop that keeps the Color source infos of the selected group. */
  method SelectColorSources(sourceInfos: seq<SourceInfo>) returns (selectedSourceInfos: seq<SourceInfo>)
    ensures selectedSourceInfos == ColorSources(sourceInfos)
  {
    selectedSourceInfos := [];
    var i := 0;
    while i < |sourceInfos|
      invariant 0 <= i <= |sourceInfos|
      invariant selectedSourceInfos == ColorSources(sourceInfos[..i])
    {
      assert sourceInfos[..i + 1][..i] == sourceInfos[..i];
      if sourceInfos[i].kind == Color {
        selectedSourceInfos := selectedSourceInfos + [sourceInfos[i]];
      }
      i := i + 1;
    }
    assert sourceInfos[..i] == sourceInfos;
  }

  // ----- Frame source and format ----------------------------------------------

  ghost predicate HasImageWidthFormat(formats: seq<FrameFormat>)
  {
    exists k :: 0 <= k < |formats| && formats[k].width == IMAGE_WIDTH
  }

  ghost predicate FirstFormatIn(sources: seq<seq<FrameFormat>>, c: FormatChoice)
  {
    && c.source < |sources|
    && c.format < |sources[c.source]| && sources[c.source][c.format].width == IMAGE_WIDTH
    && forall k :: 0 <= k < c.format ==> sources[c.source][k].width != IMAGE_WIDTH
  }

  /** The source/format loop: every source with a format of the image width
      overwrites the choice with its first such format, so the last such
      source wins; None when check_bool(preferredFormat != nullptr) fails.
      sources[i] holds the supported formats of the i-th kept source. */
  method SelectFormat(sources: seq<seq<FrameFormat>>) returns (r: Option<FormatChoice>)
    ensures r.None? <==> forall i :: 0 <= i < |sources| ==> !HasImageWidthFormat(sources[i])
    ensures r.Some? ==> FirstFormatIn(sources, r.value)
    ensures r.Some? ==> forall i :: r.value.source < i < |sources| ==> !HasImageWidthFormat(sources[i])
  {
    r := None;
    var i := 0;
    while i < |sources|
      invariant 0 <= i <= |sources|
      invariant r.None? ==> forall m :: 0 <= m < i ==> !HasImageWidthFormat(sources[m])
      invariant r.Some? ==> r.value.source < i && FirstFormatIn(sources, r.value)
      invariant r.Some? ==> forall m :: r.value.source < m < i ==> !HasImageWidthFormat(sources[m])
    {
      var f := FindImageWidth(FormatWidths(sources[i]));
      if f.Some? {
        r := Some(FormatChoice(i, f.value));
      } else {
        assert !HasImageWidthFormat(sources[i]);
      }
      i := i + 1;
    }
  }

  // ----- InitializeAsync --------------------------------------------------------

  datatype InitError = NoProfileOfImageWidth | NoColorSource | NoFormatOfImageWidth

  datatype Initialization =
    | Initialized(profile: ProfileChoice, colorSources: seq<SourceInfo>, format: FormatChoice)
    | InitFailed(error: InitError)

  /** The supported formats of each kept source, looked up by its id. */
  function SourceFormats(infos: seq<SourceInfo>, frameSources: map<string, seq<FrameFormat>>): (r: seq<seq<FrameFormat>>)
    requires forall s :: s in infos ==> s.id in frameSources
    ensures |r| == |infos| && forall i :: 0 <= i < |infos| ==> r[i] == frameSources[infos[i].id]
  {
    seq(|infos|, i requires 0 <= i < |infos| => frameSources[infos[i].id])
  }

  /** Every source info of every group has an entry in frameSources. */
  ghost predicate SourcesKnown(groups: seq<SourceGroup>, frameSources: map<string, seq<FrameFormat>>)
  {
    forall g, s :: 0 <= g < |groups| && s in groups[g].sourceInfos ==> s.id in frameSources
  }

  /** The Color sources of the chosen group, with their formats. */
  function ChosenSources(groups: seq<SourceGroup>, frameSources: map<string, seq<FrameFormat>>, c: ProfileChoice)
    : (r: seq<seq<FrameFormat>>)
    requires SourcesKnown(groups, frameSources) && c.group < |groups|
    ensures |r| == |ColorSources(groups[c.group].sourceInfos)|
  {
    SourceFormats(ColorSources(groups[c.group].sourceInfos), frameSources)
  }

  /** The three selections in order, each failed check_bool ending
      InitializeAsync with its error. frameSources is the FrameSources view
      of the initialised MediaCapture, looked up by source id. Each error is
      returned exactly when its search comes up empty after the earlier ones
      succeeded, and otherwise the reader is created on the chosen profile,
      Color sources and format. */
  method InitializeAsync(groups: seq<SourceGroup>, frameSources: map<string, seq<FrameFormat>>)
    returns (r: Initialization)
    requires SourcesKnown(groups, frameSources)
    ensures r == InitFailed(NoProfileOfImageWidth) <==>
              forall g, p :: IsPair(groups, g, p) ==> !HasImageWidth(groups[g].profiles[p])
    ensures r == InitFailed(NoColorSource) <==>
              exists c :: IsChosenProfile(groups, c) && ColorSources(groups[c.group].sourceInfos) == []
    ensures r == InitFailed(NoFormatOfImageWidth) <==>
              exists c :: IsChosenProfile(groups, c) && ColorSources(groups[c.group].sourceInfos) != []
                          && var formats := ChosenSources(groups, frameSources, c);
                             forall i :: 0 <= i < |formats| ==> !HasImageWidthFormat(formats[i])
    ensures r.Initialized? <==>
              exists c :: IsChosenProfile(groups, c)
                          && var formats := ChosenSources(groups, frameSources, c);
                             exists i :: 0 <= i < |formats| && HasImageWidthFormat(formats[i])
    ensures r.Initialized? ==>
      && IsChosenProfile(groups, r.profile)
      && r.colorSources == ColorSources(groups[r.profile.group].sourceInfos)
      && r.colorSources != []
      && var formats := ChosenSources(groups, frameSources, r.profile);
         && FirstFormatIn(formats, r.format)
         && forall i :: r.format.source < i < |formats| ==> !HasImageWidthFormat(formats[i])
  {
    var profile := SelectProfile(groups);
    if profile.None? {
      return InitFailed(NoProfileOfImageWidth);
    }
    var chosen := profile.value;
    assert IsChosenProfile(groups, chosen);
    forall c | IsChosenProfile(groups, c) ensures c == chosen {
      ChosenProfileUnique(groups, c, chosen);
    }
    var selectedSourceGroup := groups[chosen.group];
    var selectedSourceInfos := SelectColorSources(selectedSourceGroup.sourceInfos);
    if selectedSourceInfos == [] {
      return InitFailed(NoColorSource);
    }
    var formats := SourceFormats(selectedSourceInfos, frameSources);
    assert formats == ChosenSources(groups, frameSources, chosen);
    var format := SelectFormat(formats);
    if format.None? {
      return InitFailed(NoFormatOfImageWidth);
    }
    return Initialized(chosen, selectedSourceInfos, format.value);
  }
}
