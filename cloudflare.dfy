/** The one pure helper of the object-storage client: the public URL of a
    stored image. The upload call is represented only by the request it
    sends; signed URLs are not part of this model. */
module Cloudflare {

  /** The public development origin of the bucket. */
  const R2_ORIGIN := "https://pub-705ad826bed340ee9907e8e62361a06e.r2.dev/"

  /** `getPublicUrlFromKey`'s fixed prefix: the origin followed by the
      `product_images/` folder. */
  const PUBLIC_BASE := R2_ORIGIN + "product_images/"

  /** `getPublicUrlFromKey(key)` */
  function PublicUrl(key: string): string {
    PUBLIC_BASE + key
  }

  /** Different keys give different URLs. */
  lemma PublicUrlInjective(a: string, b: string)
    requires PublicUrl(a) == PublicUrl(b)
    ensures a == b
  {
    assert a == PublicUrl(a)[|PUBLIC_BASE|..];
    assert b == PublicUrl(b)[|PUBLIC_BASE|..];
  }
}
