/**
 The `HTTPException`s the repository and the route handlers raise, and the
 result type that carries either a value or one of them.
 */
module Errors {

  datatype Error =
    | BadRequest(detail: string)   // 400
    | Forbidden(detail: string)    // 403
    | NotFound(detail: string)     // 404

  function Status(e: Error): nat {
    match e
    case BadRequest(_) => 400
    case Forbidden(_) => 403
    case NotFound(_) => 404
  }

  datatype Result<+T> = Success(value: T) | Failure(error: Error)

  const TitleExists := "A blog with this title already exists"
  const ConstraintError := "Database constraint error"
  const BlogNotFound := "Blog not found"
  const ImageNotFound := "Image not found in this blog"
  const UpdateForbidden := "Not authorized to update this blog"
  const DeleteForbidden := "Not authorized to delete this blog"
  const AddImageForbidden := "Not authorized to add images to this blog"
  const DeleteImageForbidden := "Not authorized to delete images from this blog"
}
