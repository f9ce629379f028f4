/**
 * The material table (`Material::from`): one entry per scene material, holding the
 * texture loaded for its diffuse texture path, or null when it has none.
 */
module Materials {
  import opened Wrappers
  import opened Native
  import opened Assimp

  /** An image as libpng decodes it into RGBA bytes. A GL texture is represented by
      the image uploaded into it. */
  datatype Image = Image(width: nat, height: nat, pixels: seq<uint8>)

  /** The outcome of reading a PNG file: `png_image_begin_read_from_file` failed,
      `png_image_finish_read` failed, or the file decoded. */
  datatype PngRead = BeginReadFailed | FinishReadFailed | Decoded(image: Image)

  /** The foreign lookups the table build makes: the file name of the embedded
      texture a material path names (`aiScene::GetEmbeddedTexture`, None for a
      null result), and reading a PNG file from disk. */
  datatype Assets = Assets(embeddedFilename: string -> Option<string>, readPng: string -> PngRead)

  /** A material is the texture it binds. */
  datatype Material = Material(texture: Image)

  /** The vector of possibly-null materials, indexed like the scene's materials. */
  type MaterialTable = seq<Option<Material>>

  const LoadImageError: string := "Failed to load image."

  /** The path `GetTexture(aiTextureType_DIFFUSE, 0, ...)` writes: the first diffuse
      texture's path, or the empty string it leaves untouched when there is none. */
  function DiffusePath(m: AiMaterial): string
  {
    if |m.diffuseTextures| > 0 then m.diffuseTextures[0] else ""
  }

  /** The file an embedded texture is read from: "media/<name>.png". */
  function TextureFile(filename: string): string
  {
    "media/" + filename + ".png"
  }

  /** The embedded texture is dereferenced without a null check, so a non-empty
      diffuse path must name one. */
  predicate Resolvable(m: AiMaterial, assets: Assets)
  {
    DiffusePath(m) != "" ==> assets.embeddedFilename(DiffusePath(m)).Some?
  }

  /** The PNG read for a material with a non-empty diffuse path. */
  function ReadFor(m: AiMaterial, assets: Assets): PngRead
    requires Resolvable(m, assets) && DiffusePath(m) != ""
  {
    assets.readPng(TextureFile(assets.embeddedFilename(DiffusePath(m)).value))
  }

  /** One iteration of the table build: null for an empty path, the decoded
      texture otherwise, and the image-load error when libpng fails. */
  function MaterialEntry(m: AiMaterial, assets: Assets): (r: Result<Option<Material>, string>)
    requires Resolvable(m, assets)
    ensures (r.Success? && r.value.None?) <==> DiffusePath(m) == ""
    ensures r.Failure? <==> DiffusePath(m) != "" && !ReadFor(m, assets).Decoded?
    ensures r.Failure? ==> r.error == LoadImageError
    ensures r.Success? && r.value.Some? ==> r.value.value.texture == ReadFor(m, assets).image
  {
    if DiffusePath(m) == "" then Success(None)
    else match ReadFor(m, assets)
      case BeginReadFailed => Failure(LoadImageError)
      case FinishReadFailed => Failure(LoadImageError)
      case Decoded(image) => Success(Some(Material(image)))
  }

  /** The first k materials all resolve and load. */
  predicate LoadsBefore(ms: seq<AiMaterial>, k: nat, assets: Assets)
    requires k <= |ms|
  {
    forall j | 0 <= j < k :: Resolvable(ms[j], assets) && MaterialEntry(ms[j], assets).Success?
  }

  /** What the table build relies on: each material the loop reaches, that is
      one whose predecessors all loaded, has a resolvable diffuse path. Materials
      after the first failing one are never looked at. */
  predicate ResolvableUntilFailure(ms: seq<AiMaterial>, assets: Assets)
  {
    forall k | 0 <= k < |ms| :: LoadsBefore(ms, k, assets) ==> Resolvable(ms[k], assets)
  }

  /** A prefix of the materials loads and resolves as the whole list does. */
  lemma PrefixLoads(ms: seq<AiMaterial>, i: nat, assets: Assets)
    requires i <= |ms|
    ensures forall k | 0 <= k <= i :: LoadsBefore(ms[..i], k, assets) == LoadsBefore(ms, k, assets)
    ensures ResolvableUntilFailure(ms, assets) ==> ResolvableUntilFailure(ms[..i], assets)
  {
  }

  /** The whole table, built in order; the first failing entry aborts the build. */
  function MaterialTableOf(ms: seq<AiMaterial>, assets: Assets): (r: Result<MaterialTable, string>)
    requires ResolvableUntilFailure(ms, assets)
    ensures r.Success? <==> LoadsBefore(ms, |ms|, assets)
    ensures r.Success? ==> |r.value| == |ms|
    ensures r.Success? ==> forall i | 0 <= i < |ms| :: r.value[i] == MaterialEntry(ms[i], assets).value
    ensures r.Failure? ==> r.error == LoadImageError
    ensures r.Failure? ==> exists k | 0 <= k < |ms| ::
      LoadsBefore(ms, k, assets) && Resolvable(ms[k], assets) && MaterialEntry(ms[k], assets).Failure?
    decreases |ms|
  {
    if ms == [] then Success([])
    else
      var init := ms[..|ms| - 1];
      PrefixLoads(ms, |ms| - 1, assets);
      match MaterialTableOf(init, assets)
      case Failure(e) => Failure(e)
      case Success(table) =>
        match MaterialEntry(ms[|ms| - 1], assets)
        case Failure(e) => Failure(e)
        case Success(entry) => Success(table + [entry])
  }

  /** `Material::from`: grows the vector with one entry per scene material. */
  method BuildMaterials(scene: AiScene, assets: Assets) returns (r: Result<MaterialTable, string>)
    requires ResolvableUntilFailure(scene.materials, assets)
    ensures r == MaterialTableOf(scene.materials, assets)
  {
    var materials: MaterialTable := [];
    for i := 0 to |scene.materials|
      invariant ResolvableUntilFailure(scene.materials[..i], assets)
      invariant MaterialTableOf(scene.materials[..i], assets) == Success(materials)
      invariant LoadsBefore(scene.materials, i, assets)
    {
      PrefixLoads(scene.materials, i + 1, assets);
      assert scene.materials[..i + 1][..i] == scene.materials[..i];
      var material := scene.materials[i];
      var path := DiffusePath(material);
      if |path| > 0 {
        var filePath := TextureFile(assets.embeddedFilename(path).value);
        match assets.readPng(filePath)
        case BeginReadFailed =>
          assert !LoadsBefore(scene.materials, |scene.materials|, assets);
          return Failure(LoadImageError);
        case FinishReadFailed =>
          assert !LoadsBefore(scene.materials, |scene.materials|, assets);
          return Failure(LoadImageError);
        case Decoded(image) =>
          materials := materials + [Some(Material(image))];
      } else {
        materials := materials + [None];
      }
    }
    assert scene.materials[..|scene.materials|] == scene.materials;
    return Success(materials);
  }
}
