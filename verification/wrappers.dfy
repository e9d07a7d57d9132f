/** The not-found channel of every lookup in this model: `None` stands for
    the Http404 (or DoesNotExist) that the views raise. */
module Wrappers {

  datatype Option<+T> = None | Some(value: T)

}
