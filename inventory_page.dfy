/**
 The state of the inventory page and the handlers that change it. The page
 keeps the full product list, the list the table shows, the pagination
 position, the three search inputs and the delete-confirmation dialog.
 */
module ProductManagement {
  import opened JsArray
  import opened Inventory

  class InventoryPage {
    /** The catalogue every run of the loading effect reads: a constant that
        deleting never changes. */
    const catalogue: seq<Product>
    var products: seq<Product>
    var filteredProducts: seq<Product>
    var page: nat
    var rowsPerPage: nat
    var searchName: string
    var searchCategory: string
    var status: string
    var openDeleteDialog: bool
    var productToDelete: Option<string>

    /** The dialog is open exactly while a product id is pending, and the table
        only ever shows products of the full list, in list order. */
    ghost predicate Valid()
      reads this
    {
      && (openDeleteDialog <==> productToDelete.Some?)
      && SubseqOf(filteredProducts, products)
    }

    /** The initial state: no products yet, page 0 of 10 rows, empty searches,
        status "All", dialog closed and nothing pending. */
    constructor (catalogue: seq<Product>)
      ensures Valid()
      ensures this.catalogue == catalogue
      ensures products == [] && filteredProducts == []
      ensures page == 0 && rowsPerPage == 10
      ensures searchName == "" && searchCategory == "" && status == AllLabel
      ensures !openDeleteDialog && productToDelete == None
    {
      this.catalogue := catalogue;
      products := [];
      filteredProducts := [];
      page := 0;
      rowsPerPage := 10;
      searchName := "";
      searchCategory := "";
      status := AllLabel;
      openDeleteDialog := false;
      productToDelete := None;
    }

    /** The product-loading effect: the whole catalogue becomes the product list
        and the current page of it becomes the shown list. Since deleting never
        changes the catalogue, a reload brings every deleted product back. */
    method FetchProducts()
      requires Valid()
      modifies this
      ensures Valid()
      ensures products == catalogue
      ensures filteredProducts == PageWindow(catalogue, page, rowsPerPage)
      ensures |filteredProducts| <= rowsPerPage
      ensures page == old(page) && rowsPerPage == old(rowsPerPage)
      ensures searchName == old(searchName) && searchCategory == old(searchCategory) && status == old(status)
      ensures openDeleteDialog == old(openDeleteDialog) && productToDelete == old(productToDelete)
    {
      var paginated := PageWindow(catalogue, page, rowsPerPage);
      PageWindowIsSubseq(catalogue, page, rowsPerPage);
      products := catalogue;
      filteredProducts := paginated;
    }

    /** The search effect: the shown list becomes the products that pass the
        name, category and status tests. */
    method ApplySearch()
      requires Valid()
      modifies this
      ensures Valid()
      ensures filteredProducts == FilterProducts(products, searchName, searchCategory, status)
      ensures forall p :: p in filteredProducts <==> p in products && Matches(p, searchName, searchCategory, status)
      ensures products == old(products)
      ensures page == old(page) && rowsPerPage == old(rowsPerPage)
      ensures searchName == old(searchName) && searchCategory == old(searchCategory) && status == old(status)
      ensures openDeleteDialog == old(openDeleteDialog) && productToDelete == old(productToDelete)
    {
      FilterProductsSpec(products, searchName, searchCategory, status);
      filteredProducts := FilterProducts(products, searchName, searchCategory, status);
    }

    method SetSearchName(value: string)
      requires Valid()
      modifies this`searchName
      ensures Valid()
      ensures searchName == value
    {
      searchName := value;
    }

    method SetSearchCategory(value: string)
      requires Valid()
      modifies this`searchCategory
      ensures Valid()
      ensures searchCategory == value
    {
      searchCategory := value;
    }

    method SetStatus(value: string)
      requires Valid()
      modifies this`status
      ensures Valid()
      ensures status == value
    {
      status := value;
    }

    /** `handleChangePage`: moves to the requested page and keeps the page size. */
    method HandleChangePage(newPage: nat)
      requires Valid()
      modifies this`page
      ensures Valid()
      ensures page == newPage && rowsPerPage == old(rowsPerPage)
    {
      page := newPage;
    }

    /** `handleChangeRowsPerPage`: takes the new page size and always returns to page 0. */
    method HandleChangeRowsPerPage(value: nat)
      requires Valid()
      modifies this`rowsPerPage, this`page
      ensures Valid()
      ensures rowsPerPage == value && page == 0
      ensures products == old(products) && filteredProducts == old(filteredProducts)
    {
      rowsPerPage := value;
      page := 0;
    }

    /** `handleOpenDeleteDialog`: remembers which product to delete and opens the dialog. */
    method HandleOpenDeleteDialog(productId: string)
      requires Valid()
      modifies this`productToDelete, this`openDeleteDialog
      ensures Valid()
      ensures productToDelete == Some(productId) && openDeleteDialog
    {
      productToDelete := Some(productId);
      openDeleteDialog := true;
    }

    /** `handleCloseDeleteDialog`: forgets the pending product and closes the dialog. */
    method HandleCloseDeleteDialog()
      requires Valid()
      modifies this`productToDelete, this`openDeleteDialog
      ensures Valid()
      ensures productToDelete == None && !openDeleteDialog
    {
      productToDelete := None;
      openDeleteDialog := false;
    }

    /** `handleDeleteProduct`: `deleteSucceeded` stands for the outcome of the
        DELETE request. On success every product with the pending id leaves both
        lists, all others stay in order, and the dialog is closed; on failure
        nothing changes. */
    method HandleDeleteProduct(deleteSucceeded: bool)
      requires Valid()
      modifies this`products, this`filteredProducts, this`productToDelete, this`openDeleteDialog
      ensures Valid()
      ensures deleteSucceeded ==>
        && products == RemoveId(old(products), old(productToDelete))
        && filteredProducts == RemoveId(old(filteredProducts), old(productToDelete))
        && productToDelete == None && !openDeleteDialog
      ensures deleteSucceeded && old(productToDelete).Some? ==>
        var id := old(productToDelete).value;
        && (forall p :: p in products ==> p.id != id)
        && (forall p :: p in filteredProducts ==> p.id != id)
        && SubseqOf(products, old(products))
        && (forall p: Product :: p.id != id ==> multiset(products)[p] == multiset(old(products))[p])
        && (forall p: Product :: p.id != id ==> multiset(filteredProducts)[p] == multiset(old(filteredProducts))[p])
      ensures !deleteSucceeded ==>
        && products == old(products) && filteredProducts == old(filteredProducts)
        && productToDelete == old(productToDelete) && openDeleteDialog == old(openDeleteDialog)
    {
      if deleteSucceeded {
        var target := productToDelete;
        RemoveIdKeepsSubseq(filteredProducts, products, target);
        if target.Some? {
          RemoveIdSpec(products, target.value);
          RemoveIdSpec(filteredProducts, target.value);
        }
        products := RemoveId(products, target);
        filteredProducts := RemoveId(filteredProducts, target);
        HandleCloseDeleteDialog();
      }
    }
  }

  /** A confirmed delete followed by a page change: the loading effect runs again
      and reads the unchanged catalogue, so the deleted product is listed again. */
  method DeleteThenChangePage(pg: InventoryPage, newPage: nat)
    requires pg.Valid()
    modifies pg
    ensures pg.Valid()
    ensures pg.products == pg.catalogue && pg.page == newPage
    ensures forall p :: p in pg.catalogue && Some(p.id) == old(pg.productToDelete) ==> p in pg.products
  {
    pg.HandleDeleteProduct(true);
    pg.HandleChangePage(newPage);
    pg.FetchProducts();
  }

  /** Whatever the table shows is a product of the full list. */
  lemma ShownProductsAreListed(pg: InventoryPage)
    requires pg.Valid()
    ensures forall p :: p in pg.filteredProducts ==> p in pg.products
  {
    SubseqMembers(pg.filteredProducts, pg.products);
  }
}
