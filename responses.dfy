/** What a view's dispatch step answers with. */
module Responses {

  datatype Response =
    | Render(template: string)   // a page rendered from a template, ending the request
    | Redirect(target: string)   // a redirect to a named URL
    | Proceed                    // the next handler in the view's chain takes over
}
