/** The three mainland exchanges. */
module Exchanges {
  datatype Exchange = Shanghai | Shenzhen | Beijing
}
