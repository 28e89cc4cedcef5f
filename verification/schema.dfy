/** The document shapes of the two collections. */
module Schema {
  import opened Wrappers
  import opened Store

  /** The three statuses a news document can have. */
  datatype NewsStatus = PAUSE | ACTIVE | DELETE

  /** The status the schema stores when none is given. */
  const DefaultNewsStatus: NewsStatus := PAUSE

  /** A news document's fields. Title and content are required; image and video are optional
      paths. The status is absent only on documents written before the field existed. */
  datatype NewsFields = NewsFields(
    title: string,
    content: string,
    image: Option<string>,
    video: Option<string>,
    status: Option<NewsStatus>)

  type News = Doc<NewsFields>

  /** A product document's fields. Title and description are required; the image is optional. */
  datatype ProductFields = ProductFields(title: string, description: string, image: Option<string>)

  type Product = Doc<ProductFields>

  /** What the validation pipe's `IsNotEmpty` and the schema's `required` validator accept of a
      string: anything but the empty string. */
  predicate Present(s: string) { |s| > 0 }
}
