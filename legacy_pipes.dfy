/** The older `Pipeline` of `pipes.py`: the same image and filter lists, but
    no sufix or prefix settings (every saved name ends in `_modified`) and a
    `run` that returns nothing. Walks, reads, writes and progress messages
    are handled as in `Pipes`. */
module LegacyPipes {
  import opened Images
  import opened PathNames
  import opened Composition
  import opened Pipes

  /** Every field of an older pipeline. */
  datatype LegacyState = LegacyState(
    images: seq<string>,
    pipeline: seq<Step>,
    outputPath: string,
    inputPath: string,
    outputFileType: string)

  /** The name the older `saveModified` gives a processed file. */
  function LegacyOutputName(fileName: string, fileType: string): string {
    Stem(fileName) + "_modified." + fileType
  }

  /** The older name is the newer one with the newer pipeline's default
      prefix and sufix. */
  lemma LegacyNameIsDefaultName(fileName: string, fileType: string)
    ensures LegacyOutputName(fileName, fileType) == OutputName("", fileName, "_modified", fileType)
  {
    assert "_modified." == "_modified" + ".";
  }

  /** The older saved names keep the chosen file type as their extension and
      end their stem in `_modified`. */
  lemma LegacyOutputNameParts(fileName: string, fileType: string)
    requires '.' !in fileType
    ensures Extension(LegacyOutputName(fileName, fileType)) == fileType
    ensures Stem(LegacyOutputName(fileName, fileType)) == Stem(fileName) + "_modified"
  {
    LegacyNameIsDefaultName(fileName, fileType);
    OutputNameParts("", fileName, "_modified", fileType);
    assert "" + Stem(fileName) + "_modified" == Stem(fileName) + "_modified";
  }

  class Pipeline {
    var images: seq<string>
    var pipeline: seq<Step>
    var outputPath: string
    var inputPath: string
    var outputFileType: string

    function State(): LegacyState
      reads this
    {
      LegacyState(images, pipeline, outputPath, inputPath, outputFileType)
    }

    /** The newer pipeline this one behaves like when it saves: no prefix
        and the sufix `_modified`. */
    function AsCurrent(): PipelineState
      reads this
    {
      PipelineState(images, pipeline, outputPath, inputPath, outputFileType, "_modified", "")
    }

    /** `__init__`: no images, the given filters, empty paths, `jpg` files. */
    constructor(pipeline: seq<Step>)
      ensures State() == LegacyState([], pipeline, "", "", "jpg")
    {
      images := [];
      this.pipeline := pipeline;
      outputPath := "";
      inputPath := "";
      outputFileType := "jpg";
    }

    /** `setOutputFileType`: only `jpg`, `jpeg`, `png` and `tif` are taken. */
    method SetOutputFileType(fileType: string)
      modifies this
      ensures fileType in FileTypes ==> State() == old(State()).(outputFileType := fileType)
      ensures fileType !in FileTypes ==> State() == old(State())
    {
      if fileType in FileTypes {
        outputFileType := fileType;
      }
    }

    /** `setOutputPath`: records the folder (creating it is not modelled). */
    method SetOutputPath(path: string)
      modifies this
      ensures State() == old(State()).(outputPath := path)
    {
      outputPath := path;
    }

    /** `addImage`: appends the path; nothing else changes. */
    method AddImage(imagePath: string)
      modifies this
      ensures State() == old(State()).(images := old(images) + [imagePath])
    {
      images := images + [imagePath];
    }

    /** `addInputFolder`: records the folder and adds, in walk order, every
        walked file whose extension is accepted. */
    method AddInputFolder(path: string, walk: seq<WalkEntry>)
      modifies this
      ensures State() == old(State()).(inputPath := path, images := old(images) + ImageFiles(walk))
    {
      inputPath := path;
      for k := 0 to |walk|
        invariant State() == old(State()).(inputPath := path, images := old(images) + ImageFiles(walk[..k]))
      {
        assert walk[..k + 1][..k] == walk[..k];
        var e := walk[k];
        if IsImageName(e.name) {
          AddImage(JoinPath(e.root, e.name));
        }
      }
      assert walk[..|walk|] == walk;
    }

    /** `add`: appends the filter; nothing else changes. */
    method Add(item: Step)
      modifies this
      ensures State() == old(State()).(pipeline := old(pipeline) + [item])
    {
      pipeline := pipeline + [item];
    }

    /** `setPipeline`: replaces the whole filter list. */
    method SetPipeline(steps: seq<Step>)
      modifies this
      ensures State() == old(State()).(pipeline := steps)
    {
      pipeline := steps;
    }

    /** `saveModified`: writes the image into the output folder under the
        file's stem followed by `_modified` and the file type. */
    method SaveModified(image: Image, fileName: string) returns (w: Written)
      ensures w.image == image
      ensures w.path == JoinPath(outputPath, LegacyOutputName(fileName, outputFileType))
    {
      var filename := Stem(fileName);
      w := Written(JoinPath(outputPath, filename + "_modified." + outputFileType), image);
    }

    /** `process`: the filters applied in list order to the loaded image. */
    method Process(src: Source, read: string -> Image) returns (r: Image)
      ensures r == Fold(pipeline, Load(src, read))
    {
      var temp := Load(src, read);
      r := ApplySteps(pipeline, temp);
    }

    /** `run`: processes the images in the order they were added, reports
        `current` out of `number` for each and, when `saveFiles`, saves each
        result exactly where the newer pipeline with its default settings
        would. */
    method Run(saveFiles: bool, read: string -> Image) returns (writes: seq<Written>, progress: seq<Message>)
      ensures writes == if saveFiles then Writes(AsCurrent(), read, images) else []
      ensures progress == Progress(images, |images|)
    {
      var number := |images|;
      var current := 0;
      writes, progress := [], [];
      for k := 0 to |images|
        invariant current == k
        invariant writes == if saveFiles then Writes(AsCurrent(), read, images[..k]) else []
        invariant progress == Progress(images[..k], number)
      {
        var image := images[k];
        assert images[..k + 1][..k] == images[..k];
        current := current + 1;
        progress := progress + [Message(current, number, image)];
        var temp := Process(Path(image), read);
        if saveFiles {
          var w := SaveModified(temp, Basename(image));
          LegacyNameIsDefaultName(Basename(image), outputFileType);
          writes := writes + [w];
        }
      }
      assert images[..|images|] == images;
    }
  }
}
