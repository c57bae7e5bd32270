/** The atlas metadata record: for every sprite key, where the sprite landed
    and how it was trimmed. */
module Meta {
  import opened Geometry
  import opened Packer

  datatype Dimension = Dimension(width: int, height: int)

  /** One sprite's record: atlas position, trimmed size, original size, and the
      trimmed rectangle's minimum corner in the decoded image's coordinates. */
  datatype ImageMeta = ImageMeta(position: Point, size: Dimension, originalSize: Dimension, offset: Point)

  /** The whole record: the atlas size and a record per sprite key. */
  datatype AtlasMetaRecord = AtlasMetaRecord(size: Dimension, images: map<string, ImageMeta>)

  function DimensionOf(r: Rect): Dimension {
    Dimension(r.Dx(), r.Dy())
  }

  /** The record of one sprite. */
  function ImageMetaOf(img: AtlasImage): ImageMeta {
    ImageMeta(img.atlasPos, DimensionOf(img.trimmed), DimensionOf(img.orgBounds), img.trimmed.min)
  }

  /** The keys of the given sprites. */
  function KeySet(images: seq<AtlasImage>, keyOf: string -> string): set<string> {
    set i | 0 <= i < |images| :: keyOf(images[i].path)
  }

  /** No sprite after sprite `i` shares its key. */
  predicate LastWithKey(images: seq<AtlasImage>, keyOf: string -> string, i: int)
    requires 0 <= i < |images|
  {
    forall j :: i < j < |images| ==> keyOf(images[j].path) != keyOf(images[i].path)
  }

  lemma KeySetSnoc(images: seq<AtlasImage>, keyOf: string -> string)
    requires |images| > 0
    ensures KeySet(images, keyOf) == KeySet(images[..|images| - 1], keyOf) + {keyOf(images[|images| - 1].path)}
  {
    var n := |images| - 1;
    var prefix := images[..n];
    forall k | k in KeySet(images, keyOf)
      ensures k in KeySet(prefix, keyOf) + {keyOf(images[n].path)}
    {
      var i :| 0 <= i < |images| && keyOf(images[i].path) == k;
      if i < n {
        assert prefix[i] == images[i];
      }
    }
    forall k | k in KeySet(prefix, keyOf)
      ensures k in KeySet(images, keyOf)
    {
      var i :| 0 <= i < n && keyOf(prefix[i].path) == k;
      assert prefix[i] == images[i];
    }
  }

  /** The map built by the loop over the sprites: each sprite writes its record
      under its key, so a later sprite with the same key overwrites an earlier one. */
  function MetaMap(images: seq<AtlasImage>, keyOf: string -> string): map<string, ImageMeta> {
    if |images| == 0 then map[]
    else MetaMap(images[..|images| - 1], keyOf)[keyOf(images[|images| - 1].path) := ImageMetaOf(images[|images| - 1])]
  }

  /** The map has a record for exactly the sprites' keys, and under each key the
      record of the last sprite carrying it. */
  lemma {:induction false} MetaMapContents(images: seq<AtlasImage>, keyOf: string -> string)
    ensures MetaMap(images, keyOf).Keys == KeySet(images, keyOf)
    ensures forall i :: 0 <= i < |images| && LastWithKey(images, keyOf, i) ==>
              keyOf(images[i].path) in MetaMap(images, keyOf) && MetaMap(images, keyOf)[keyOf(images[i].path)] == ImageMetaOf(images[i])
  {
    if |images| > 0 {
      var n := |images| - 1;
      var prefix := images[..n];
      MetaMapContents(prefix, keyOf);
      KeySetSnoc(images, keyOf);
      var m := MetaMap(images, keyOf);
      assert m == MetaMap(prefix, keyOf)[keyOf(images[n].path) := ImageMetaOf(images[n])];
      forall i | 0 <= i < n && LastWithKey(images, keyOf, i)
        ensures keyOf(images[i].path) in m && m[keyOf(images[i].path)] == ImageMetaOf(images[i])
      {
        assert prefix[i] == images[i];
        assert keyOf(images[n].path) != keyOf(images[i].path);
        forall j | i < j < n
          ensures keyOf(prefix[j].path) != keyOf(prefix[i].path)
        {
          assert prefix[j] == images[j];
        }
        assert LastWithKey(prefix, keyOf, i);
      }
    }
  }

  /** `Atlas.AtlasMeta`: the atlas size, and for every sprite its record under
      the key `keyOf` derives from its path (the last sprite wins on a shared
      key). `keyOf` stands for the path-stripping step. */
  function AtlasMeta(images: seq<AtlasImage>, keyOf: string -> string, atlasSize: Point): (meta: AtlasMetaRecord)
    ensures meta.size == Dimension(atlasSize.x, atlasSize.y)
    ensures meta.images.Keys == KeySet(images, keyOf)
    ensures forall i :: 0 <= i < |images| && LastWithKey(images, keyOf, i) ==>
              && keyOf(images[i].path) in meta.images
              && meta.images[keyOf(images[i].path)].position == images[i].atlasPos
              && meta.images[keyOf(images[i].path)].size == Dimension(images[i].trimmed.Dx(), images[i].trimmed.Dy())
              && meta.images[keyOf(images[i].path)].originalSize == Dimension(images[i].orgBounds.Dx(), images[i].orgBounds.Dy())
              && meta.images[keyOf(images[i].path)].offset == images[i].trimmed.min
  {
    MetaMapContents(images, keyOf);
    AtlasMetaRecord(Dimension(atlasSize.x, atlasSize.y), MetaMap(images, keyOf))
  }

  /** The texture coordinates a binding generator derives from a record,
      u0 = x/W, u1 = (x + w)/W and likewise for v, stated on the integer
      numerators: for every sprite a successful pack placed, 0 < x <= x + w < W,
      so 0 < u0 <= u1 < 1. Both u0 < u1 and v0 < v1 hold exactly when the
      trimmed image has pixels; a sprite without pixels has width or
      height 0, and one trimmed to the zero rectangle gets u0 == u1 and v0 == v1. */
  lemma RecordInsideAtlas(img: AtlasImage, atlasSize: Point)
    requires atlasSize.x >= 1 && atlasSize.y >= 1
    requires img.trimmed.WellFormed()
    requires Padded(img).Inside(Root(atlasSize))
    ensures var m := ImageMetaOf(img);
            && 0 < m.position.x <= m.position.x + m.size.width < atlasSize.x
            && 0 < m.position.y <= m.position.y + m.size.height < atlasSize.y
    ensures var m := ImageMetaOf(img);
            (m.size.width > 0 && m.size.height > 0) <==> !img.trimmed.Empty()
  {
  }
}
