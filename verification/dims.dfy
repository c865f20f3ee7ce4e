/** Dimension lengths of a netCDF variable or HDF5 dataset, and the products
    the tools compute over them. */
module Dims {
  /** The product of a list of dimension lengths (`varsize` for all of them,
      `total_elements`, `total_slices` for the leading ones). */
  function Product(dims: seq<nat>): nat {
    if |dims| == 0 then 1 else Product(dims[..|dims| - 1]) * dims[|dims| - 1]
  }

  lemma {:induction false} ProductSplit(dims: seq<nat>, k: nat)
    requires k <= |dims|
    ensures Product(dims) == Product(dims[..k]) * Product(dims[k..])
    decreases |dims|
  {
    if k < |dims| {
      var n := |dims|;
      ProductSplit(dims[..n - 1], k);
      assert dims[..n - 1][..k] == dims[..k];
      assert dims[k..][..|dims[k..]| - 1] == dims[..n - 1][k..];
      calc {
        Product(dims);
        Product(dims[..n - 1]) * dims[n - 1];
        (Product(dims[..k]) * Product(dims[..n - 1][k..])) * dims[n - 1];
        Product(dims[..k]) * (Product(dims[..n - 1][k..]) * dims[n - 1]);
        Product(dims[..k]) * Product(dims[k..]);
      }
    } else {
      assert dims[..k] == dims;
    }
  }
}
