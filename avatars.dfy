/**
 * Where the follower thumbnails go on the banner (index.js:110-127).
 *
 * Each of the listed followers gets a record naming its thumbnail file and
 * the pixel offsets at which the banner composer lays it over the
 * template. The thumbnails are produced concurrently and the records are
 * pushed as each one finishes, so their order in `image_data` is the
 * completion order; the completion order is a parameter here.
 */
module Avatars {
  import opened JsText

  /** One entry of `image_data`: the thumbnail file and its offsets in pixels. */
  datatype Overlay = Overlay(input: JsString, top: int, left: int)

  /** Side of the square thumbnail that `process_image` writes (index.js:154). */
  const ThumbnailSize: nat := 83

  // The two fixed parts of the thumbnail path are written out as code units:
  // the solver would otherwise unfold `Utf16` over the literal in every proof
  // that mentions a path. The text of the source is kept beside them, and
  // the two lemmas below show that they agree.

  /** The thumbnail directory, `images/avatars/`, as code units. */
  const AvatarDirectory: JsString :=
    [0x69, 0x6D, 0x61, 0x67, 0x65, 0x73, 0x2F, 0x61, 0x76, 0x61, 0x74, 0x61, 0x72, 0x73, 0x2F]

  /** The thumbnail extension, `.png`, as code units. */
  const PngExtension: JsString := [0x2E, 0x70, 0x6E, 0x67]

  const AvatarDirectoryText: string := "images/avatars/"
  const PngExtensionText: string := ".png"

  lemma AvatarDirectoryIsUtf16()
    ensures AvatarDirectory == Utf16(AvatarDirectoryText)
  {
    Utf16OfBmpText(AvatarDirectoryText, AvatarDirectory);
  }

  lemma PngExtensionIsUtf16()
    ensures PngExtension == Utf16(PngExtensionText)
  {
    Utf16OfBmpText(PngExtensionText, PngExtension);
  }

  /** `images/avatars/${follower.id}.png`, for the id's text as the API client prints it. */
  function AvatarPath(id: JsString): JsString
  {
    AvatarDirectory + id + PngExtension
  }

  /** `parseInt(`${126 + 100 * index}`)`: the offset printed and read back. */
  function TopOffset(index: nat): nat
  {
    ParseDecimal(DecimalString(126 + 100 * index))
  }

  /** The record built for the follower at list position `index`. */
  function AvatarOverlay(id: JsString, index: nat): Overlay
  {
    Overlay(AvatarPath(id), TopOffset(index), 1315)
  }

  /** The records in list order: follower `i` gets the record for position `i`. */
  function Placements(ids: seq<JsString>): (r: seq<Overlay>)
    ensures |r| == |ids|
  {
    seq(|ids|, i requires 0 <= i < |ids| => AvatarOverlay(ids[i], i))
  }

  /**
   * The follower at list position `index` is placed 126 + 100 * index pixels
   * from the top and 1315 from the left: the thumbnails stack in one
   * column, 100 pixels apart.
   */
  lemma AvatarPlacement(id: JsString, index: nat)
    ensures AvatarOverlay(id, index).top == 126 + 100 * index
    ensures AvatarOverlay(id, index).left == 1315
    ensures AvatarOverlay(id, index).input == AvatarPath(id)
  {
    DecimalRoundTrip(126 + 100 * index);
  }

  /**
   * Two different positions never overlap: the 83-pixel thumbnails are
   * 100 pixels apart, so the order in which they are laid over the
   * template does not change the banner.
   */
  lemma ThumbnailsDisjoint(a: JsString, i: nat, b: JsString, j: nat)
    requires i != j
    ensures var x, y := AvatarOverlay(a, i), AvatarOverlay(b, j);
      x.top + ThumbnailSize <= y.top || y.top + ThumbnailSize <= x.top
  {
    AvatarPlacement(a, i);
    AvatarPlacement(b, j);
  }

  /** Every one of `n` thumbnails finishes at some step, each step naming one of them. */
  predicate IsCompletionOrder(completion: seq<nat>, n: nat)
  {
    && |completion| == n
    && (forall k :: 0 <= k < n ==> completion[k] < n)
    && (forall i :: 0 <= i < n ==> i in completion)
  }

  /**
   * The `.then` callbacks of the thumbnail promises, run in completion
   * order: each builds its follower's record from the follower's list
   * position, pushes it onto `image_data`, counts it, and resolves the
   * join when the count reaches the number of followers. Afterwards
   * `image_data` holds exactly the list-order records, whatever the
   * completion order; the join resolves only when there was at least one
   * follower, since the count is compared only after a push.
   */
  method CollectAvatars(ids: seq<JsString>, completion: seq<nat>)
    returns (imageData: seq<Overlay>, count: nat, resolved: bool)
    requires IsCompletionOrder(completion, |ids|)
    ensures count == |ids| == |imageData|
    ensures forall k :: 0 <= k < count ==> imageData[k] == Placements(ids)[completion[k]]
    ensures forall r :: r in imageData <==> r in Placements(ids)
    ensures resolved <==> |ids| > 0
  {
    imageData := [];
    count := 0;
    resolved := false;
    while count < |completion|
      invariant count <= |completion| && |imageData| == count
      invariant forall k :: 0 <= k < count ==> imageData[k] == AvatarOverlay(ids[completion[k]], completion[k])
      invariant resolved <==> 0 < count == |ids|
    {
      var index := completion[count];
      var followerAvatar := AvatarOverlay(ids[index], index);
      imageData := imageData + [followerAvatar];
      count := count + 1;
      if count == |ids| {
        resolved := true;
      }
    }
    PermutedPlacements(ids, completion, imageData);
  }

  /** Records taken in a completion order are the list-order records, each once. */
  lemma PermutedPlacements(ids: seq<JsString>, completion: seq<nat>, imageData: seq<Overlay>)
    requires IsCompletionOrder(completion, |ids|) && |imageData| == |ids|
    requires forall k :: 0 <= k < |imageData| ==> imageData[k] == AvatarOverlay(ids[completion[k]], completion[k])
    ensures forall r :: r in imageData <==> r in Placements(ids)
  {
    var placements := Placements(ids);
    forall r | r in imageData
      ensures r in placements
    {
      var k :| 0 <= k < |imageData| && r == imageData[k];
      assert r == placements[completion[k]];
    }
    forall r | r in placements
      ensures r in imageData
    {
      var i :| 0 <= i < |ids| && r == placements[i];
      assert i in completion;
      var k :| 0 <= k < |completion| && completion[k] == i;
      assert imageData[k] == r;
    }
  }
}
