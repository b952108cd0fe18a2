/**
 * The background style the user chose, as the FFmpeg video filter that fits
 * the still image into a 1280x720 frame.
 */
module VideoStyle {

  /** Fill the frame, scaling up and cropping what overflows. */
  const CoverFilter: string := "scale=1280:720:force_original_aspect_ratio=increase,crop=1280:720"
  /** Fit inside the frame, scaling down and padding the borders, centred. */
  const ContainFilter: string := "scale=1280:720:force_original_aspect_ratio=decrease,pad=1280:720:(ow-iw)/2:(oh-ih)/2"
  /** Repeat the image two by two. */
  const TileFilter: string := "tile=2x2"

  /**
   * The video filter for a style name: "contain" and "center" fit the image,
   * "repeat" tiles it, and "cover" and every other name fill the frame.
   */
  function VideoFilter(style: string): (filter: string)
    ensures filter == CoverFilter || filter == ContainFilter || filter == TileFilter
    ensures filter == TileFilter <==> style == "repeat"
    ensures filter == ContainFilter <==> style == "contain" || style == "center"
    ensures filter == CoverFilter <==> style != "repeat" && style != "contain" && style != "center"
  {
    assert |CoverFilter| != |ContainFilter| && |CoverFilter| != |TileFilter| && |ContainFilter| != |TileFilter|;
    match style
    case "cover" => CoverFilter
    case "contain" => ContainFilter
    case "repeat" => TileFilter
    case "center" => ContainFilter
    case _ => CoverFilter
  }
}
