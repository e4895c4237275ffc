/**
 * What the handlers see of libheif. The codec itself is outside the model: every
 * call into it becomes a value handed to the handler, and a call that throws
 * heif::Error becomes `None`.
 */
module LibHeif {
  import opened Primitives
  import opened Wrappers

  /** heif_item_id, an unsigned 32-bit identifier assigned by the container. */
  newtype ItemId = x: int | 0 <= x < 0x1_0000_0000

  /**
   * A decode context opened on a file's bytes, reduced to the three answers the
   * handler asks of it: get_number_of_top_level_images (a C++ int),
   * get_list_of_top_level_image_IDs and get_primary_image_ID.
   */
  datatype Context = Context(topLevelCount: int32, topLevelIds: seq<ItemId>, primaryId: ItemId)

  /**
   * A decoded heif::Image reduced to what the handlers query of its interleaved
   * channel: get_width, get_height, and get_plane's pointer and stride. `plane` is
   * `None` for a null pointer; otherwise it holds the bytes the pointer addresses.
   */
  datatype DecodedImage = DecodedImage(width: int32, height: int32, stride: int32, plane: Option<seq<byte>>)

  /** A host bitmap (QImage in Format_RGBA8888) built over a pixel buffer. */
  datatype Bitmap = Bitmap(width: int32, height: int32, stride: int32, pixels: seq<byte>)

  /** Identity of a QIODevice (its address), compared by the handlers to detect a device change. */
  datatype DeviceId = DeviceId(address: nat)
}
