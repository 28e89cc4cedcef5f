/**
 * The errors the services reject a request with. In the source every one of
 * them is a `BadRequestException` with its own message; here each message is
 * a constructor of its own. The validation pipe runs every constraint of an
 * input and throws one exception listing every property that failed, so its
 * two errors carry the failing fields, in the order the input declares them.
 */
module Errors {

  datatype Error =
    | NewsNotFound               // 'News not found'
    | ProductNotFound            // 'Product not found'
    | TitleAlreadyExists         // 'Product with this title already exists'
    | InvalidImageType           // 'Invalid file type. Allowed types: jpg, jpeg, png'
    | InvalidVideoType           // 'Only mp4, webm, ogg allowed for videos'
    | VideoTooLarge              // 'Video exceeds 25MB limit'
    | DeleteStatusNotAllowed     // listing with status DELETE
    | NotMarkedDeleted           // removing a news item whose status is not DELETE
    | MissingRequired(fields: seq<string>) // the validation pipe's `IsNotEmpty`, or the schema's `required`
    | InvalidFilter(fields: seq<string>)   // the validation pipe's `Min(1)` on the filter fields
}
