/** The `Pipeline` of `impipes/pipes.py`: a list of image paths, a list of
    filters, and the settings that name the files it saves.

    Filters are steps from image to image (`Composition.Step`). `cv2.imread`
    is the parameter `read`; `os.walk` is the list of (directory, file name)
    entries it would produce, in its order; `cv2.imwrite` and the progress
    messages are returned as logs (`Written` and `Message` entries) instead
    of being performed. */
module Pipes {
  import opened Images
  import opened PathNames
  import opened Composition

  /** A setter's argument as `type(x) is str` sees it. */
  datatype Argument = Text(value: string) | NotText

  /** One file `os.walk` reports: the directory it is in and its name. */
  datatype WalkEntry = WalkEntry(root: string, name: string)

  /** What `process` is given: a path to read, or an image. */
  datatype Source = Path(path: string) | Pixels(image: Image)

  /** One "Processing image `current` out of `number`" message with its path. */
  datatype Message = Message(current: nat, number: nat, path: string)

  /** One `cv2.imwrite(path, image)`. */
  datatype Written = Written(path: string, image: Image)

  /** Every field of a pipeline, to say which of them an operation changes. */
  datatype PipelineState = PipelineState(
    images: seq<string>,
    pipeline: seq<Step>,
    outputPath: string,
    inputPath: string,
    outputFileType: string,
    sufix: string,
    prefix: string)

  /** The paths `addInputFolder` adds for a walk: each walked file whose
      extension is accepted, joined onto its directory, in walk order. */
  function ImageFiles(walk: seq<WalkEntry>): (paths: seq<string>)
    ensures |paths| <= |walk|
  {
    if |walk| == 0 then []
    else
      var e := walk[|walk| - 1];
      ImageFiles(walk[..|walk| - 1]) + (if IsImageName(e.name) then [JoinPath(e.root, e.name)] else [])
  }

  /** Walking two lists one after the other adds the files of each, in order. */
  lemma {:induction false} ImageFilesAppend(a: seq<WalkEntry>, b: seq<WalkEntry>)
    ensures ImageFiles(a + b) == ImageFiles(a) + ImageFiles(b)
    decreases |b|
  {
    if |b| == 0 {
      assert a + b == a;
    } else {
      var n := |b| - 1;
      assert (a + b)[..|a + b| - 1] == a + b[..n];
      ImageFilesAppend(a, b[..n]);
    }
  }

  /** A path is added exactly when some walked file with an accepted
      extension joins to it. */
  lemma ImageFilesMember(walk: seq<WalkEntry>, p: string)
    ensures p in ImageFiles(walk) <==>
      exists k :: 0 <= k < |walk| && IsImageName(walk[k].name) && p == JoinPath(walk[k].root, walk[k].name)
  {
    if p in ImageFiles(walk) {
      var k := AddedFrom(walk, p);
    }
    if exists k :: 0 <= k < |walk| && IsImageName(walk[k].name) && p == JoinPath(walk[k].root, walk[k].name) {
      var k :| 0 <= k < |walk| && IsImageName(walk[k].name) && p == JoinPath(walk[k].root, walk[k].name);
      AddedAt(walk, k);
    }
  }

  /** The walked file an added path comes from. */
  lemma {:induction false} AddedFrom(walk: seq<WalkEntry>, p: string) returns (k: nat)
    requires p in ImageFiles(walk)
    ensures k < |walk| && IsImageName(walk[k].name) && p == JoinPath(walk[k].root, walk[k].name)
    decreases |walk|
  {
    var n := |walk| - 1;
    if p in ImageFiles(walk[..n]) {
      k := AddedFrom(walk[..n], p);
      assert walk[..n][k] == walk[k];
    } else {
      k := n;
    }
  }

  /** Every walked file with an accepted extension is added. */
  lemma {:induction false} AddedAt(walk: seq<WalkEntry>, k: nat)
    requires k < |walk| && IsImageName(walk[k].name)
    ensures JoinPath(walk[k].root, walk[k].name) in ImageFiles(walk)
    decreases |walk|
  {
    var n := |walk| - 1;
    if k < n {
      AddedAt(walk[..n], k);
      assert walk[..n][k] == walk[k];
    }
  }

  /** Every added path ends in a file name with an accepted extension (file
      names hold no slash). */
  lemma AddedPathsAreImages(walk: seq<WalkEntry>, p: string)
    requires forall k :: 0 <= k < |walk| ==> '/' !in walk[k].name
    requires p in ImageFiles(walk)
    ensures IsImageName(Basename(p))
  {
    ImageFilesMember(walk, p);
    var k :| 0 <= k < |walk| && IsImageName(walk[k].name) && p == JoinPath(walk[k].root, walk[k].name);
    JoinedBasename(walk[k].root, walk[k].name);
  }

  /** The name `saveModified` gives a processed file. */
  function OutputName(prefix: string, fileName: string, sufix: string, fileType: string): string {
    prefix + Stem(fileName) + sufix + "." + fileType
  }

  /** A string without `c` is left alone by deleting `c`. */
  lemma {:induction false} WithoutAbsent(s: string, c: char)
    requires c !in s
    ensures Without(s, c) == s
  {
    if |s| > 0 {
      assert c !in s[1..] by {
        forall k | 0 <= k < |s[1..]| ensures s[1..][k] != c { assert s[1..][k] == s[k + 1]; }
      }
      WithoutAbsent(s[1..], c);
      assert s == [s[0]] + s[1..];
    }
  }

  /** With dot-free prefix, sufix and file type, the saved name has the
      chosen file type as its extension, and its stem is the prefix, the
      input's stem and the sufix. */
  lemma OutputNameParts(prefix: string, fileName: string, sufix: string, fileType: string)
    requires '.' !in prefix && '.' !in sufix && '.' !in fileType
    ensures Extension(OutputName(prefix, fileName, sufix, fileType)) == fileType
    ensures Stem(OutputName(prefix, fileName, sufix, fileType)) == prefix + Stem(fileName) + sufix
  {
    var front := prefix + Stem(fileName) + sufix;
    var name := OutputName(prefix, fileName, sufix, fileType);
    assert name == front + ['.'] + fileType;
    assert name[|front|] == '.';
    assert name[|front| + 1..] == fileType;
    assert name[..|front|] == front;
    LastDot(name, |front|);
    WithoutAbsent(front, '.');
  }

  /** A name without a dot contributes nothing of its own to the saved name. */
  lemma DotlessOutputName(prefix: string, fileName: string, sufix: string, fileType: string)
    requires '.' !in fileName
    ensures OutputName(prefix, fileName, sufix, fileType) == prefix + sufix + "." + fileType
  {
    DotlessName(fileName);
  }

  /** A saved file's name is accepted again by the input filter whenever the
      settings hold no dot. */
  lemma OutputNameIsImageName(prefix: string, fileName: string, sufix: string, fileType: string)
    requires '.' !in prefix && '.' !in sufix && fileType in FileTypes
    ensures IsImageName(OutputName(prefix, fileName, sufix, fileType))
  {
    OutputNameParts(prefix, fileName, sufix, fileType);
  }

  /** `process` before its first filter: the image read from a path, or the
      image given. `read` is the same `cv2.imread` as the `read` of
      `Filters.Filter`, but total here: a pipeline is only given paths it
      can read. */
  function Load(src: Source, read: string -> Image): Image {
    match src
    case Path(p) => read(p)
    case Pixels(img) => img
  }

  /** The images `run` produces for `paths`, in order. */
  function Outputs(steps: seq<Step>, read: string -> Image, paths: seq<string>): (out: seq<Image>)
    ensures |out| == |paths|
    ensures forall k :: 0 <= k < |paths| ==> out[k] == Fold(steps, read(paths[k]))
  {
    if |paths| == 0 then []
    else Outputs(steps, read, paths[..|paths| - 1]) + [Fold(steps, read(paths[|paths| - 1]))]
  }

  /** Where `saveModified` puts the result for the image at `path`. */
  function SavedPath(s: PipelineState, path: string): string {
    JoinPath(s.outputPath, OutputName(s.prefix, Basename(path), s.sufix, s.outputFileType))
  }

  /** The files `run` writes for `paths`, in order. */
  function Writes(s: PipelineState, read: string -> Image, paths: seq<string>): (out: seq<Written>)
    ensures |out| == |paths|
    ensures forall k :: 0 <= k < |paths| ==> out[k] == Written(SavedPath(s, paths[k]), Fold(s.pipeline, read(paths[k])))
  {
    if |paths| == 0 then []
    else
      var p := paths[|paths| - 1];
      Writes(s, read, paths[..|paths| - 1]) + [Written(SavedPath(s, p), Fold(s.pipeline, read(p)))]
  }

  /** The progress messages `run` prints for `paths`, out of `number`:
      the k-th names its position, counted from 1, and its path. */
  function Progress(paths: seq<string>, number: nat): (out: seq<Message>)
    ensures |out| == |paths|
    ensures forall q :: 0 <= q < |paths| ==> out[q] == Message(q + 1, number, paths[q])
  {
    if |paths| == 0 then []
    else Progress(paths[..|paths| - 1], number) + [Message(|paths|, number, paths[|paths| - 1])]
  }

  class Pipeline {
    var images: seq<string>
    var pipeline: seq<Step>
    var outputPath: string
    var inputPath: string
    var outputFileType: string
    var sufix: string
    var prefix: string

    function State(): PipelineState
      reads this
    {
      PipelineState(images, pipeline, outputPath, inputPath, outputFileType, sufix, prefix)
    }

    /** `__init__`: no images, the given filters, empty paths, `jpg` files
        named with the sufix `_modified` and no prefix. */
    constructor(pipeline: seq<Step>)
      ensures State() == PipelineState([], pipeline, "", "", "jpg", "_modified", "")
    {
      images := [];
      this.pipeline := pipeline;
      outputPath := "";
      inputPath := "";
      outputFileType := "jpg";
      sufix := "_modified";
      prefix := "";
    }

    /** `setSufix`: only a string replaces the sufix. */
    method SetSufix(arg: Argument)
      modifies this
      ensures arg.Text? ==> State() == old(State()).(sufix := arg.value)
      ensures arg.NotText? ==> State() == old(State())
    {
      if arg.Text? {
        sufix := arg.value;
      }
    }

    /** `setPrefix`: only a string replaces the prefix. */
    method SetPrefix(arg: Argument)
      modifies this
      ensures arg.Text? ==> State() == old(State()).(prefix := arg.value)
      ensures arg.NotText? ==> State() == old(State())
    {
      if arg.Text? {
        prefix := arg.value;
      }
    }

    /** `setOutputFileType`: only `jpg`, `jpeg`, `png` and `tif` are taken. */
    method SetOutputFileType(fileType: string)
      modifies this
      ensures fileType in FileTypes ==> State() == old(State()).(outputFileType := fileType)
      ensures fileType !in FileTypes ==> State() == old(State())
    {
      if fileType in FileTypes {
        outputFileType := fileType;
      }
    }

    /** `setOutputPath`: records the folder (creating it is not modelled). */
    method SetOutputPath(path: string)
      modifies this
      ensures State() == old(State()).(outputPath := path)
    {
      outputPath := path;
    }

    /** `addImage`: appends the path; nothing else changes. */
    method AddImage(imagePath: string)
      modifies this
      ensures State() == old(State()).(images := old(images) + [imagePath])
    {
      images := images + [imagePath];
    }

    /** `addInputFolder`: records the folder and adds, in walk order, every
        walked file whose extension is accepted. */
    method AddInputFolder(path: string, walk: seq<WalkEntry>)
      modifies this
      ensures State() == old(State()).(inputPath := path, images := old(images) + ImageFiles(walk))
    {
      inputPath := path;
      for k := 0 to |walk|
        invariant State() == old(State()).(inputPath := path, images := old(images) + ImageFiles(walk[..k]))
      {
        assert walk[..k + 1][..k] == walk[..k];
        var e := walk[k];
        if IsImageName(e.name) {
          AddImage(JoinPath(e.root, e.name));
        }
      }
      assert walk[..|walk|] == walk;
    }

    /** `add`: appends the filter; nothing else changes. */
    method Add(item: Step)
      modifies this
      ensures State() == old(State()).(pipeline := old(pipeline) + [item])
    {
      pipeline := pipeline + [item];
    }

    /** `setPipeline`: replaces the whole filter list. */
    method SetPipeline(steps: seq<Step>)
      modifies this
      ensures State() == old(State()).(pipeline := steps)
    {
      pipeline := steps;
    }

    /** `saveModified`: writes the image into the output folder under the
        name built from the settings and the file's stem. */
    method SaveModified(image: Image, fileName: string) returns (w: Written)
      ensures w.image == image
      ensures w.path == JoinPath(outputPath, OutputName(prefix, fileName, sufix, outputFileType))
    {
      var name := prefix + Stem(fileName) + sufix + "." + outputFileType;
      w := Written(JoinPath(outputPath, name), image);
    }

    /** `process`: the filters applied in list order to the loaded image,
        each output feeding the next filter. */
    method Process(src: Source, read: string -> Image) returns (r: Image)
      ensures r == Fold(pipeline, Load(src, read))
      ensures r == ApplyFromFront(pipeline, Load(src, read))
    {
      var temp := Load(src, read);
      r := ApplySteps(pipeline, temp);
    }

    /** `run`: processes the images in the order they were added, reports
        `current` out of `number` for each, saves each result under the name
        built from its path's last component when `saveFiles`, and returns
        the results, in order, when `returnList` (otherwise nothing). */
    method Run(saveFiles: bool, returnList: bool, read: string -> Image)
      returns (modified: seq<Image>, writes: seq<Written>, progress: seq<Message>)
      ensures modified == if returnList then Outputs(pipeline, read, images) else []
      ensures writes == if saveFiles then Writes(State(), read, images) else []
      ensures progress == Progress(images, |images|)
    {
      var number := |images|;
      var current := 0;
      modified, writes, progress := [], [], [];
      for k := 0 to |images|
        invariant current == k
        invariant modified == if returnList then Outputs(pipeline, read, images[..k]) else []
        invariant writes == if saveFiles then Writes(State(), read, images[..k]) else []
        invariant progress == Progress(images[..k], number)
      {
        var image := images[k];
        assert images[..k + 1][..k] == images[..k];
        current := current + 1;
        progress := progress + [Message(current, number, image)];
        var temp := Process(Path(image), read);
        if saveFiles {
          var w := SaveModified(temp, Basename(image));
          writes := writes + [w];
        }
        if returnList {
          modified := modified + [temp];
        }
      }
      assert images[..|images|] == images;
    }
  }
}
