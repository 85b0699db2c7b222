/** How the three byte sniffers relate: the service's and the manager's are both
    stricter than the adapter base class's, and each disagrees with it on some
    concrete buffer. */
module SnifferDivergence {
  import opened Bytes
  import opened Signatures
  import BaseClipboard
  import ClipboardService
  import ClipboardManager

  /** Every buffer the service or the manager accepts, the adapter base class accepts too. */
  lemma StricterThanBase(b: seq<byte>)
    ensures ClipboardService.IsImageBuffer(b) ==> BaseClipboard.IsImageBuffer(b)
    ensures ClipboardManager.IsImageBuffer(b) ==> BaseClipboard.IsImageBuffer(b)
  {
  }

  /** A `GIF9` header: the base class calls it a GIF, the service does not call it an image. */
  lemma GifWithoutEight(b: seq<byte>)
    requires b == [0x47, 0x49, 0x46, 0x39]
    ensures BaseClipboard.IsImageBuffer(b) && BaseClipboard.DetectImageFormat(b) == Gif
    ensures !ClipboardService.IsImageBuffer(b) && ClipboardService.DetectImageFormat(b) == Png
  {
  }

  /** A minimal WebP header: an image to the base class and the service, not to the manager. */
  lemma WebpOnlyTwoOfThree(b: seq<byte>)
    requires b == [0x52, 0x49, 0x46, 0x46, 0, 0, 0, 0, 0x57, 0x45, 0x42, 0x50]
    ensures BaseClipboard.IsImageBuffer(b) && BaseClipboard.DetectImageFormat(b) == Webp
    ensures ClipboardService.IsImageBuffer(b) && ClipboardService.DetectImageFormat(b) == Webp
    ensures !ClipboardManager.IsImageBuffer(b) && ClipboardManager.DetectImageFormat(b) == Png
  {
  }

  /** Two JPEG marker bytes followed by zeros: the manager detects `jpg` on a buffer that none
      of the sniffers accepts. */
  lemma ManagerDetectsOnTwoBytes(b: seq<byte>)
    requires b == [0xFF, 0xD8, 0x00, 0x00]
    ensures ClipboardManager.DetectImageFormat(b) == Jpg && !ClipboardManager.IsImageBuffer(b)
    ensures BaseClipboard.DetectImageFormat(b) == Png && !BaseClipboard.IsImageBuffer(b)
  {
  }
}
