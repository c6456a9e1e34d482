/** The optional value returned where the crawler may find nothing (an end-of-listing page)
    or where the source would raise (a link without the tag separator). */
module Wrappers {

  datatype Option<+T> = None | Some(value: T)

}
